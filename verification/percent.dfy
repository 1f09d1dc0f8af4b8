/**
 * Percent-encoding (section 2.1 of RFC 3986) as `urllib.parse.quote(s, safe='')`
 * performs it: the UTF-8 bytes of `s` are written out one by one, a byte that
 * is an unreserved character (section 2.3 of RFC 3986: ALPHA, DIGIT, `-`,
 * `.`, `_`, `~`) as itself and every other byte as `%` followed by two
 * upper-case hexadecimal digits. With no safe characters, `/` is escaped too,
 * so the result is a single path segment.
 */
module Percent {
  import opened Results
  import Utf8
  import Text

  /** The unreserved characters of section 2.3 of RFC 3986. */
  predicate Unreserved(c: char)
  {
    || ('A' <= c <= 'Z') || ('a' <= c <= 'z') || ('0' <= c <= '9')
    || c == '-' || c == '.' || c == '_' || c == '~'
  }

  const HexDigits: string := "0123456789ABCDEF"

  /** The value of one hexadecimal digit, either case. */
  function HexValue(c: char): (r: Option<nat>)
    ensures r.Some? ==> r.value < 16
    ensures forall v :: 0 <= v < 16 ==> (c == HexDigits[v] ==> r == Some(v))
  {
    if '0' <= c <= '9' then Some(c as int - '0' as int)
    else if 'A' <= c <= 'F' then Some(c as int - 'A' as int + 10)
    else if 'a' <= c <= 'f' then Some(c as int - 'a' as int + 10)
    else None
  }

  /** One byte as `quote` writes it. */
  function QuoteByte(b: Utf8.Byte): (r: string)
    ensures r == [b as char] || r == ['%', HexDigits[b / 16], HexDigits[b % 16]]
    ensures |r| == 1 <==> (b < 0x80 && Unreserved(b as char))
  {
    if b < 0x80 && Unreserved(b as char) then [b as char]
    else ['%', HexDigits[b / 16], HexDigits[b % 16]]
  }

  /** Every character of `r` is unreserved or the `%` of an escape. */
  predicate Escaped(r: string)
  {
    forall i :: 0 <= i < |r| ==> Unreserved(r[i]) || r[i] == '%'
  }

  lemma EscapedAppend(a: string, b: string)
    requires Escaped(a) && Escaped(b)
    ensures Escaped(a + b)
  {
    forall i | 0 <= i < |a + b| ensures Unreserved((a + b)[i]) || (a + b)[i] == '%' {
      if i < |a| {
        assert (a + b)[i] == a[i];
      } else {
        assert (a + b)[i] == b[i - |a|];
      }
    }
  }

  /** `urllib.parse.quote_from_bytes(bs, safe='')`. */
  function QuoteBytes(bs: seq<Utf8.Byte>): (r: string)
    ensures Escaped(r)
    decreases |bs|
  {
    if bs == [] then []
    else
      EscapedAppend(QuoteByte(bs[0]), QuoteBytes(bs[1..]));
      QuoteByte(bs[0]) + QuoteBytes(bs[1..])
  }

  /** The text `quote` writes for one character: its UTF-8 bytes, quoted. */
  function QuoteChar(c: char): (r: string)
    ensures Escaped(r)
    ensures Unreserved(c) ==> r == [c]
  {
    var r := QuoteBytes(Utf8.EncodeChar(c));
    assert Unreserved(c) ==> r == [c] by {
      if Unreserved(c) {
        var bs := Utf8.EncodeChar(c);
        assert bs == [c as int] && bs[1..] == [];
        assert (c as int) as char == c;
        assert QuoteByte(c as int) == [c];
        assert r == QuoteByte(bs[0]) + QuoteBytes(bs[1..]);
      }
    }
    r
  }

  /** `urllib.parse.quote(s, safe='')`: every character of the result is
      unreserved or the `%` of an escape, so in particular no `/` is left and
      the result can stand as one path segment. */
  function Quote(s: string): (r: string)
    ensures Escaped(r)
    ensures '/' !in r
    decreases |s|
  {
    if s == [] then []
    else
      EscapedAppend(QuoteChar(s[0]), Quote(s[1..]));
      QuoteChar(s[0]) + Quote(s[1..])
  }

  /** A string that is already all unreserved comes back unchanged. */
  lemma {:induction false} QuoteUnreserved(s: string)
    requires forall i :: 0 <= i < |s| ==> Unreserved(s[i])
    ensures Quote(s) == s
    decreases |s|
  {
    if s != [] {
      QuoteUnreserved(s[1..]);
      assert [s[0]] + s[1..] == s;
    }
  }

  /** Quoting character by character is quoting the whole UTF-8 encoding,
      which is how `quote` itself proceeds. */
  lemma {:induction false} QuoteIsQuoteOfEncoding(s: string)
    ensures Quote(s) == QuoteBytes(Utf8.Encode(s))
    decreases |s|
  {
    if s != [] {
      QuoteIsQuoteOfEncoding(s[1..]);
      QuoteBytesAppend(Utf8.EncodeChar(s[0]), Utf8.Encode(s[1..]));
    }
  }

  /** Percent-decoding to bytes, as `urllib.parse.unquote_to_bytes` does it:
      `%XX` with two hexadecimal digits becomes that byte, a `%` not followed
      by two hexadecimal digits stays a literal `%`, and any other character
      contributes its UTF-8 bytes. */
  function UnquoteToBytes(s: string): seq<Utf8.Byte>
    decreases |s|
  {
    if s == [] then []
    else if s[0] == '%' && |s| >= 3 && HexValue(s[1]).Some? && HexValue(s[2]).Some? then
      [HexValue(s[1]).value * 16 + HexValue(s[2]).value] + UnquoteToBytes(s[3..])
    else
      Utf8.EncodeChar(s[0]) + UnquoteToBytes(s[1..])
  }

  /** Percent-decoding followed by strict UTF-8 decoding. */
  function Unquote(s: string): Option<string>
  {
    Utf8.Decode(UnquoteToBytes(s))
  }

  /** Each hexadecimal digit `quote` writes reads back as its value. */
  lemma HexDigitValue(v: nat)
    requires v < 16
    ensures HexValue(HexDigits[v]) == Some(v)
  {
  }

  /** Decoding `%` and two hexadecimal digits, whatever follows. */
  lemma UnquoteHexPair(c1: char, c2: char, rest: string, hi: nat, lo: nat)
    requires HexValue(c1) == Some(hi) && HexValue(c2) == Some(lo)
    ensures UnquoteToBytes(['%', c1, c2] + rest) == [hi * 16 + lo] + UnquoteToBytes(rest)
  {
    var s := ['%', c1, c2] + rest;
    assert s[0] == '%' && s[1] == c1 && s[2] == c2;
    assert s[3..] == rest;
  }

  /** Decoding a `%XX` escape, whatever follows, yields the escaped byte. */
  lemma UnquoteEscape(b: Utf8.Byte, rest: string)
    ensures UnquoteToBytes(['%', HexDigits[b / 16], HexDigits[b % 16]] + rest) == [b] + UnquoteToBytes(rest)
  {
    var hi: nat, lo: nat := (b / 16) as nat, (b % 16) as nat;
    HexDigitValue(hi);
    HexDigitValue(lo);
    UnquoteHexPair(HexDigits[hi], HexDigits[lo], rest, hi, lo);
    assert hi * 16 + lo == b as nat;
  }

  /** Decoding the text of one quoted byte, whatever follows, yields that byte. */
  lemma UnquoteQuoteByte(b: Utf8.Byte, rest: string)
    ensures UnquoteToBytes(QuoteByte(b) + rest) == [b] + UnquoteToBytes(rest)
  {
    var q := QuoteByte(b);
    if |q| == 1 {
      assert (q + rest)[1..] == rest;
    } else {
      UnquoteEscape(b, rest);
    }
  }

  /** Percent-decoding undoes `quote_from_bytes`. */
  lemma {:induction false} UnquoteQuoteBytes(bs: seq<Utf8.Byte>)
    ensures UnquoteToBytes(QuoteBytes(bs)) == bs
    decreases |bs|
  {
    if bs != [] {
      UnquoteQuoteByte(bs[0], QuoteBytes(bs[1..]));
      UnquoteQuoteBytes(bs[1..]);
      assert [bs[0]] + bs[1..] == bs;
    }
  }

  /** Decoding the quoted slug gives the slug back: `quote(s, safe='')` loses
      nothing. */
  lemma UnquoteQuote(s: string)
    ensures UnquoteToBytes(Quote(s)) == Utf8.Encode(s)
    ensures Unquote(Quote(s)) == Some(s)
  {
    QuoteIsQuoteOfEncoding(s);
    UnquoteQuoteBytes(Utf8.Encode(s));
    Utf8.DecodeEncode(s);
  }

  /** Quoting distributes over concatenation. */
  lemma {:induction false} QuoteBytesAppend(a: seq<Utf8.Byte>, b: seq<Utf8.Byte>)
    ensures QuoteBytes(a + b) == QuoteBytes(a) + QuoteBytes(b)
    decreases |a|
  {
    if a != [] {
      assert (a + b)[1..] == a[1..] + b;
      QuoteBytesAppend(a[1..], b);
    } else {
      assert a + b == b;
    }
  }

  /** Quoting distributes over concatenation, because UTF-8 encoding and
      byte quoting both do. */
  lemma QuoteAppend(a: string, b: string)
    ensures Quote(a + b) == Quote(a) + Quote(b)
  {
    QuoteIsQuoteOfEncoding(a + b);
    QuoteIsQuoteOfEncoding(a);
    QuoteIsQuoteOfEncoding(b);
    Utf8.EncodeAppend(a, b);
    QuoteBytesAppend(Utf8.Encode(a), Utf8.Encode(b));
  }

  /** The path separator is escaped as `%2F`. */
  lemma QuoteSlash()
    ensures Quote("/") == "%2F"
  {
    var bs := Utf8.EncodeChar('/');
    assert bs == [0x2F] && bs[1..] == [];
    assert QuoteChar('/') == QuoteByte(0x2F) == "%2F";
    assert "/"[1..] == [];
  }

  /** A nested group path becomes one segment: with unreserved names,
      `group/sub/project` is sent as `group%2Fsub%2Fproject`. */
  lemma QuoteNestedGroup(group: string, sub: string, project: string)
    requires forall i :: 0 <= i < |group| ==> Unreserved(group[i])
    requires forall i :: 0 <= i < |sub| ==> Unreserved(sub[i])
    requires forall i :: 0 <= i < |project| ==> Unreserved(project[i])
    ensures Quote(group + "/" + sub + "/" + project) == group + "%2F" + sub + "%2F" + project
  {
    QuoteSlash();
    QuoteUnreserved(group);
    QuoteUnreserved(sub);
    QuoteUnreserved(project);
    QuoteAppend(group + "/" + sub + "/", project);
    QuoteAppend(group + "/" + sub, "/");
    QuoteAppend(group + "/", sub);
    QuoteAppend(group, "/");
  }

  /** A path of unreserved names separated by `/` is quoted by escaping
      each separator as `%2F` and nothing else. */
  lemma {:induction false} QuotePath(path: string)
    requires forall i :: 0 <= i < |path| ==> Unreserved(path[i]) || path[i] == '/'
    ensures Quote(path) == Text.Replace(path, "/", "%2F")
    decreases |path|
  {
    if path != [] {
      QuotePath(path[1..]);
      if path[0] == '/' {
        QuoteSlash();
        assert path[..1] == "/";
        assert QuoteChar('/') == Quote("/") by {
          assert Quote("/") == QuoteChar('/') + Quote("/"[1..]);
          assert "/"[1..] == [];
        }
      } else {
        assert path[..1] != "/";
      }
    }
  }
}
