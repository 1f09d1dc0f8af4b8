/**
 * The two checks `all-repos-clone` makes before any repository is touched:
 * the `--jobs` argument is resolved to a worker count, and the configuration
 * file, which holds credentials, must not be readable by anyone but its owner.
 */
module CloneOptions {
  import opened Results
  import Numerals

  /** `jobs_type(s)`: `int(s)`, with zero or a negative count meaning one
      worker per CPU. The CPU count is a parameter (the host is not modelled);
      an unparsable argument is refused with the text that was given. */
  function JobsType(s: string, cpuCount: nat): (r: Result<nat, string>)
    ensures r.Ok? <==> Numerals.ParseInt(s).Some?
    ensures r.Err? ==> r.error == s
    ensures r.Ok? && cpuCount >= 1 ==> r.value >= 1
  {
    match Numerals.ParseInt(s)
    case None => Err(s)
    case Some(n) => if n <= 0 then Ok(cpuCount) else Ok(n)
  }

  /** For every integer written the way Python writes it, a positive count is
      used as given and any other count becomes the CPU count. */
  lemma JobsTypeOfNumeral(n: int, cpuCount: nat)
    ensures JobsType(Numerals.ShowInt(n), cpuCount) == Ok(if n <= 0 then cpuCount else n)
  {
    Numerals.ParseShowInt(n);
  }

  /** The cases the tests pin down: `0` and `-1` mean the CPU count, `1`
      and `2` mean themselves. */
  lemma JobsTypeZero(s: string, cpuCount: nat)
    requires s == "0"
    ensures JobsType(s, cpuCount) == Ok(cpuCount)
  {
    Numerals.ParseOneDigit(s);
  }

  lemma JobsTypeMinusOne(s: string, cpuCount: nat)
    requires s == "-1"
    ensures JobsType(s, cpuCount) == Ok(cpuCount)
  {
    Numerals.ParseMinusOneDigit(s);
  }

  lemma JobsTypeOne(s: string, cpuCount: nat)
    requires s == "1"
    ensures JobsType(s, cpuCount) == Ok(1)
  {
    Numerals.ParseOneDigit(s);
  }

  lemma JobsTypeTwo(s: string, cpuCount: nat)
    requires s == "2"
    ensures JobsType(s, cpuCount) == Ok(2)
  {
    Numerals.ParseOneDigit(s);
  }

  /** The mode the configuration file is expected to have, `0o600`. */
  const ExpectedMode: nat := 0x180

  /** The permission bits of a `st_mode`: `st_mode & 0o777`. */
  function PermissionBits(stMode: nat): nat
  {
    stMode % 0x200
  }

  /** The group and other permission classes of a mode, as its octal digits. */
  function GroupBits(mode: nat): nat { (mode / 8) % 8 }
  function OtherBits(mode: nat): nat { mode % 8 }

  /** `mode & 0o077 == 0` says exactly that the group and other digits are
      both zero. */
  lemma GroupOtherBits(mode: nat)
    ensures mode % 64 == 0 <==> GroupBits(mode) == 0 && OtherBits(mode) == 0
  {
    var a, q := mode % 8, mode / 8;
    var b, c := q % 8, q / 8;
    assert mode == 8 * q + a;
    assert q == 8 * c + b;
    assert mode == 64 * c + (8 * b + a);
    ModSixtyFour(mode, c, 8 * b + a);
  }

  /** The remainder by 64 of `64 * c + r`, for `0 <= r < 64`, is `r`. */
  lemma ModSixtyFour(x: int, c: int, r: int)
    requires 0 <= r < 64 && x == 64 * c + r
    ensures x % 64 == r
  {
  }

  /** The message the run aborts with. */
  function TooPermissiveMessage(path: string, mode: nat): string
  {
    path + " has too-permissive permissions, Expected " + Numerals.Oct(ExpectedMode)
    + ", got " + Numerals.Oct(mode)
  }

  /** The permission guard: the run goes on only when neither the group nor
      others have any permission on the file (`mode & 0o077 == 0`); otherwise
      it stops with a message naming the file, the expected mode and the
      actual permission bits, both written as Python's `oct` writes them. */
  function CheckPermissions(path: string, stMode: nat): (r: Result<(), string>)
    ensures r.Ok? <==> GroupBits(PermissionBits(stMode)) == 0 && OtherBits(PermissionBits(stMode)) == 0
    ensures r.Err? ==> r.error == TooPermissiveMessage(path, PermissionBits(stMode))
  {
    var mode := PermissionBits(stMode);
    GroupOtherBits(mode);
    if mode % 64 != 0 then Err(TooPermissiveMessage(path, mode)) else Ok(())
  }

  /** The rendered actual mode in the message reads back as the file's
      permission bits. */
  lemma MessageNamesActualMode(path: string, stMode: nat)
    requires CheckPermissions(path, stMode).Err?
    ensures var msg := CheckPermissions(path, stMode).error;
      var suffix := Numerals.Oct(PermissionBits(stMode));
      && msg[|msg| - |suffix|..] == suffix
      && Numerals.ParseOct(suffix) == Some(PermissionBits(stMode))
  {
    Numerals.ParseOctOct(PermissionBits(stMode));
  }

  /** `0o600` passes, whatever the file-type bits of `st_mode` are. */
  lemma OwnerOnlyPasses(path: string, stMode: nat)
    requires PermissionBits(stMode) == ExpectedMode
    ensures CheckPermissions(path, stMode) == Ok(())
  {
  }

  lemma OctExpected()
    ensures Numerals.Oct(ExpectedMode) == "0o600"
  {
    assert Numerals.ToDigits(6, 8) == "6";
    assert Numerals.ToDigits(48, 8) == "6" + "0";
    assert Numerals.ToDigits(0x180, 8) == "60" + "0";
  }

  lemma OctWorld()
    ensures Numerals.Oct(0x1FF) == "0o777"
  {
    assert Numerals.ToDigits(7, 8) == "7";
    assert Numerals.ToDigits(63, 8) == "7" + "7";
    assert Numerals.ToDigits(0x1FF, 8) == "77" + "7";
  }

  lemma WorldWritableText()
    ensures " has too-permissive permissions, Expected " + "0o600" + ", got " + "0o777"
      == " has too-permissive permissions, Expected 0o600, got 0o777"
  {
  }

  /** The message for mode `0o777`, spelt out. */
  lemma WorldWritableMessage(path: string)
    ensures TooPermissiveMessage(path, 0x1FF)
      == path + " has too-permissive permissions, Expected 0o600, got 0o777"
  {
    OctExpected();
    OctWorld();
    WorldWritableText();
    var a, x, b, y := " has too-permissive permissions, Expected ", "0o600", ", got ", "0o777";
    assert path + a + x + b + y == path + (a + x + b + y);
  }

  /** `0o777` fails with exactly
      `<path> has too-permissive permissions, Expected 0o600, got 0o777`. */
  lemma WorldWritableFails(path: string, stMode: nat)
    requires PermissionBits(stMode) == 0x1FF
    ensures CheckPermissions(path, stMode)
      == Err(path + " has too-permissive permissions, Expected 0o600, got 0o777")
  {
    assert GroupBits(0x1FF) == 7;
    WorldWritableMessage(path);
  }
}
