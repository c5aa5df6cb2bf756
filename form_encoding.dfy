/**
 * application/x-www-form-urlencoded encoding of one key or value, as java.net.URLEncoder.encode(s, "UTF-8")
 * performs it, and a strict decoder that serves as its partner.
 */
module FormEncoding {
  import opened Wrappers
  import Utf8
  import Strings

  /** The characters URLEncoder leaves alone. */
  predicate IsUnreserved(c: char)
  {
    || 'a' <= c <= 'z' || 'A' <= c <= 'Z' || '0' <= c <= '9'
    || c == '.' || c == '-' || c == '*' || c == '_'
  }

  /** The characters that can appear in an encoded key or value. */
  predicate IsEncodedChar(c: char)
  {
    IsUnreserved(c) || c == '+' || c == '%'
  }

  /** Every character is one an encoder may write. */
  predicate IsEncoded(s: string)
  {
    forall i :: 0 <= i < |s| ==> IsEncodedChar(s[i])
  }

  lemma EncodedConcat(a: string, b: string)
    requires IsEncoded(a) && IsEncoded(b)
    ensures IsEncoded(a + b)
  {
    forall i | 0 <= i < |a + b| ensures IsEncodedChar((a + b)[i]) {
      if i < |a| {
        assert (a + b)[i] == a[i];
      } else {
        assert (a + b)[i] == b[i - |a|];
      }
    }
  }

  /** Encoded text never holds the query separators `&` and `=`. */
  lemma EncodedHasNoSeparators(s: string)
    requires IsEncoded(s)
    ensures '&' !in s && '=' !in s
  {
    assert !IsEncodedChar('&') && !IsEncodedChar('=');
  }

  /** Upper-case hexadecimal digit for 0..15. */
  function HexDigit(n: int): (c: char)
    requires 0 <= n < 16
    ensures IsUnreserved(c) && IsHexDigit(c) && HexValue(c) == n
  {
    if n < 10 then ('0' as int + n) as char else ('A' as int + n - 10) as char
  }

  predicate IsHexDigit(c: char)
  {
    '0' <= c <= '9' || 'A' <= c <= 'F' || 'a' <= c <= 'f'
  }

  /** The value of a hexadecimal digit of either case. */
  function HexValue(c: char): (n: int)
    requires IsHexDigit(c)
    ensures 0 <= n < 16
  {
    if '0' <= c <= '9' then c as int - '0' as int
    else if 'A' <= c <= 'F' then c as int - 'A' as int + 10
    else c as int - 'a' as int + 10
  }

  /** The escape `%XY` of one byte. */
  function Escape(b: Utf8.byte): (r: string)
  {
    ['%', HexDigit(b / 16), HexDigit(b % 16)]
  }

  /** The escapes of several bytes, one after another. */
  function EscapeAll(bs: seq<Utf8.byte>): (r: string)
    ensures |r| == 3 * |bs|
    ensures IsEncoded(r)
  {
    if bs == [] then []
    else
      var head, tail := Escape(bs[0]), EscapeAll(bs[1..]);
      EncodedConcat(head, tail);
      head + tail
  }

  /** How one character is written: kept, `+` for a space, or its UTF-8 bytes escaped. */
  function EncodeChar(c: char): (r: string)
    ensures |r| >= 1
    ensures IsEncoded(r)
    ensures r == [c] <==> IsUnreserved(c)
  {
    if IsUnreserved(c) then [c]
    else if c == ' ' then "+"
    else EscapeAll(Utf8.EncodeChar(c))
  }

  /** URLEncoder.encode(s, "UTF-8"). */
  function Encode(s: string): (r: string)
    ensures |r| >= |s|
    ensures IsEncoded(r)
    ensures '&' !in r && '=' !in r
  {
    if s == [] then []
    else
      var head, tail := EncodeChar(s[0]), Encode(s[1..]);
      EncodedConcat(head, tail);
      EncodedHasNoSeparators(head + tail);
      head + tail
  }

  /** `bs` followed by the bytes of `rest`, if `rest` has any. */
  function Prepend(bs: seq<Utf8.byte>, rest: Option<seq<Utf8.byte>>): (r: Option<seq<Utf8.byte>>)
    ensures r.Some? <==> rest.Some?
  {
    match rest
    case None => None
    case Some(more) => Some(bs + more)
  }

  /**
   * The bytes a form-encoded string stands for: `+` is a space, `%XY` a byte, and any other
   * character its own UTF-8 bytes. None when a `%` is not followed by two hexadecimal digits.
   */
  function Unescape(s: string): (r: Option<seq<Utf8.byte>>)
    decreases |s|
  {
    if s == [] then Some([])
    else if s[0] == '%' then
      if |s| >= 3 && IsHexDigit(s[1]) && IsHexDigit(s[2])
      then Prepend([HexValue(s[1]) * 16 + HexValue(s[2])], Unescape(s[3..]))
      else None
    else if s[0] == '+' then Prepend([' ' as int], Unescape(s[1..]))
    else Prepend(Utf8.EncodeChar(s[0]), Unescape(s[1..]))
  }

  /** A strict form decoder: the escapes undone and the bytes read as UTF-8. */
  function Decode(s: string): (r: Option<string>)
  {
    match Unescape(s)
    case None => None
    case Some(bs) => Utf8.Decode(bs)
  }

  /** Unescaping one escape gives its byte, whatever follows it. */
  lemma UnescapeEscape(b: Utf8.byte, rest: string)
    ensures Unescape(Escape(b) + rest) == Prepend([b], Unescape(rest))
  {
    var s := Escape(b) + rest;
    assert s[3..] == rest;
    assert s[0] == '%' && s[1] == HexDigit(b / 16) && s[2] == HexDigit(b % 16);
  }

  /** Prepending in two steps is prepending once. */
  lemma PrependTwice(b: seq<Utf8.byte>, bs: seq<Utf8.byte>, rest: Option<seq<Utf8.byte>>)
    ensures Prepend(b, Prepend(bs, rest)) == Prepend(b + bs, rest)
  {
    if rest.Some? {
      Strings.Regroup(b, bs, rest.value);
    }
  }

  /** Unescaping escaped bytes gives the bytes back, whatever follows them. */
  lemma {:induction false} UnescapeEscapeAll(bs: seq<Utf8.byte>, rest: string)
    ensures Unescape(EscapeAll(bs) + rest) == Prepend(bs, Unescape(rest))
    decreases |bs|
  {
    if bs == [] {
      assert EscapeAll(bs) + rest == rest;
      if Unescape(rest).Some? {
        assert bs + Unescape(rest).value == Unescape(rest).value;
      }
    } else {
      var b, more := bs[0], EscapeAll(bs[1..]);
      assert EscapeAll(bs) + rest == Escape(b) + (more + rest) by {
        Strings.Regroup(Escape(b), more, rest);
      }
      UnescapeEscape(b, more + rest);
      UnescapeEscapeAll(bs[1..], rest);
      PrependTwice([b], bs[1..], Unescape(rest));
      Strings.Uncons(bs);
    }
  }

  /** Unescaping the encoding of one character gives that character's UTF-8 bytes. */
  lemma UnescapeEncodeChar(c: char, rest: string)
    ensures Unescape(EncodeChar(c) + rest) == Prepend(Utf8.EncodeChar(c), Unescape(rest))
  {
    if IsUnreserved(c) {
      assert ([c] + rest)[1..] == rest;
    } else if c == ' ' {
      assert ("+" + rest)[1..] == rest;
    } else {
      UnescapeEscapeAll(Utf8.EncodeChar(c), rest);
    }
  }

  /** The encoded string stands for exactly the UTF-8 bytes of the original. */
  lemma {:induction false} UnescapeEncode(s: string)
    ensures Unescape(Encode(s)) == Some(Utf8.Encode(s))
    decreases |s|
  {
    if s != [] {
      UnescapeEncodeChar(s[0], Encode(s[1..]));
      UnescapeEncode(s[1..]);
    }
  }

  /** Round trip: form-decoding an encoded key or value gives it back. */
  lemma DecodeEncode(s: string)
    ensures Decode(Encode(s)) == Some(s)
  {
    UnescapeEncode(s);
    Utf8.DecodeEncode(s);
  }

  /** A string is its own encoding exactly when all of its characters are unreserved. */
  lemma {:induction false} EncodeIdentity(s: string)
    ensures Encode(s) == s <==> AllUnreserved(s)
    decreases |s|
  {
    if s != [] {
      var head, tail := EncodeChar(s[0]), Encode(s[1..]);
      assert Encode(s) == head + tail;
      AllUnreservedCons(s);
      if IsUnreserved(s[0]) {
        EncodeIdentity(s[1..]);
        Strings.Uncons(s);
        ConsEqual(s[0], tail, s[1..]);
      } else if s[0] == ' ' {
        assert (head + tail)[0] == '+';
      } else {
        assert |head| >= 3 by {
          assert |Utf8.EncodeChar(s[0])| >= 1;
        }
      }
    }
  }

  /** Every character is unreserved. */
  predicate AllUnreserved(s: string)
  {
    forall i :: 0 <= i < |s| ==> IsUnreserved(s[i])
  }

  lemma AllUnreservedCons(s: string)
    requires s != []
    ensures AllUnreserved(s) <==> IsUnreserved(s[0]) && AllUnreserved(s[1..])
  {
    assert forall i :: 0 <= i < |s[1..]| ==> s[1..][i] == s[i + 1];
  }

  lemma ConsEqual(c: char, a: string, b: string)
    ensures [c] + a == [c] + b <==> a == b
  {
    if [c] + a == [c] + b {
      assert a == ([c] + a)[1..];
      assert b == ([c] + b)[1..];
    }
  }
}
