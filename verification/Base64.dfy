/** Unpadded standard base64 (section 4 of RFC 4648, without padding as in section 3.2). */
module Base64 {
  import opened Common
  import Text

  type sextet = v: int | 0 <= v < 64

  function ToChar(v: sextet): char
  {
    if v < 26 then 'A' + v as char
    else if v < 52 then 'a' + (v - 26) as char
    else if v < 62 then '0' + (v - 52) as char
    else if v == 62 then '+' else '/'
  }

  /** The value of an alphabet character. */
  function FromChar(c: char): Option<sextet>
  {
    if 'A' <= c <= 'Z' then Some(c as int - 'A' as int)
    else if 'a' <= c <= 'z' then Some(c as int - 'a' as int + 26)
    else if '0' <= c <= '9' then Some(c as int - '0' as int + 52)
    else if c == '+' then Some(62) else if c == '/' then Some(63) else None
  }

  lemma CharReadsBack(v: sextet)
    ensures FromChar(ToChar(v)) == Some(v) && ToChar(v) != '$' && ToChar(v) != '\n' && ToChar(v) != '\r'
  {
  }

  const UPPER := "ABCDEFGHIJKLMNOPQRSTUVWXYZ"
  const LOWER := "abcdefghijklmnopqrstuvwxyz"
  const DIGITS := "0123456789"

  const ALPHABET := UPPER + LOWER + DIGITS + "+/"

  lemma UpperAt(i: nat)
    requires i < 26
    ensures |UPPER| == 26 && UPPER[i] == 'A' + i as char
  {
    match i
    case 0 => case 1 => case 2 => case 3 => case 4 => case 5 => case 6 => case 7 => case 8 =>
    case 9 => case 10 => case 11 => case 12 => case 13 => case 14 => case 15 => case 16 => case 17 =>
    case 18 => case 19 => case 20 => case 21 => case 22 => case 23 => case 24 => case 25 =>
  }

  lemma LowerAt(i: nat)
    requires i < 26
    ensures |LOWER| == 26 && LOWER[i] == 'a' + i as char
  {
    match i
    case 0 => case 1 => case 2 => case 3 => case 4 => case 5 => case 6 => case 7 => case 8 =>
    case 9 => case 10 => case 11 => case 12 => case 13 => case 14 => case 15 => case 16 => case 17 =>
    case 18 => case 19 => case 20 => case 21 => case 22 => case 23 => case 24 => case 25 =>
  }

  lemma DigitAt(i: nat)
    requires i < 10
    ensures |DIGITS| == 10 && DIGITS[i] == '0' + i as char
  {
    match i
    case 0 => case 1 => case 2 => case 3 => case 4 => case 5 => case 6 => case 7 => case 8 =>
    case 9 =>
  }

  /** The characters are those of table 1 of RFC 4648, in its order. */
  lemma CharIsOfTheAlphabet(v: sextet)
    ensures |ALPHABET| == 64 && ToChar(v) == ALPHABET[v]
  {
    if v < 26 { UpperAt(v); } else if v < 52 { LowerAt(v - 26); } else if v < 62 { DigitAt(v - 52); }
  }

  lemma ValueIsItsPosition(c: char, v: sextet)
    ensures FromChar(c) == Some(v) <==> |ALPHABET| == 64 && ALPHABET[v] == c
  {
    CharIsOfTheAlphabet(v);
  }

  function Encode(b: Bytes): string
  {
    if b == [] then ""
    else if |b| == 1 then [ToChar(High(b[0])), ToChar(Mid(b[0], 0))]
    else if |b| == 2 then [ToChar(High(b[0])), ToChar(Mid(b[0], b[1])), ToChar(Low(b[1], 0))]
    else [ToChar(High(b[0])), ToChar(Mid(b[0], b[1])), ToChar(Low(b[1], b[2])), ToChar(Last(b[2]))] + Encode(b[3..])
  }

  // The four sextets of three bytes.

  function High(x: byte): sextet
  {
    x / 4
  }

  function Mid(x: byte, y: byte): (q: sextet)
    ensures q / 16 == x % 4 && q % 16 == y / 16
  {
    x % 4 * 16 + y / 16
  }

  function Low(y: byte, z: byte): (r: sextet)
    ensures r / 4 == y % 16 && r % 4 == z / 64
  {
    y % 16 * 4 + z / 64
  }

  function Last(z: byte): sextet
  {
    z % 64
  }

  // The three bytes of four sextets.

  function First(p: sextet, q: sextet): byte
  {
    p * 4 + q / 16
  }

  function Second(q: sextet, r: sextet): byte
  {
    q % 16 * 16 + r / 4
  }

  function Third(r: sextet, t: sextet): byte
  {
    r % 4 * 64 + t
  }

  lemma BytesReadBack(x: byte, y: byte, z: byte)
    ensures First(High(x), Mid(x, y)) == x
    ensures Second(Mid(x, y), Low(y, z)) == y
    ensures Third(Low(y, z), Last(z)) == z
  {
  }

  /** Three bytes and four sextets write the same number, most significant first. */
  lemma GroupIsTheNumber(x: byte, y: byte, z: byte)
    ensures High(x) * 0x4_0000 + Mid(x, y) * 0x1000 + Low(y, z) * 0x40 + Last(z) == x * 0x1_0000 + y * 0x100 + z
    ensures High(x) * 0x40 + Mid(x, 0) == x * 0x10
    ensures High(x) * 0x1000 + Mid(x, y) * 0x40 + Low(y, 0) == (x * 0x100 + y) * 4
  {
  }

  /** `DecodeString`: line breaks are ignored, any other foreign character is an error. */
  function Decode(s: string): Option<Bytes>
  {
    match Sextets(s)
    case None => None
    case Some(v) => FromSextets(v)
  }

  function Sextets(s: string): Option<seq<sextet>>
  {
    if s == "" then Some([])
    else if s[0] == '\n' || s[0] == '\r' then Sextets(s[1..])
    else
      match FromChar(s[0])
      case None => None
      case Some(v) =>
        match Sextets(s[1..])
        case None => None
        case Some(rest) => Some([v] + rest)
  }

  /** A lone last sextet is an error; the spare bits of a short last group are dropped. */
  function FromSextets(v: seq<sextet>): Option<Bytes>
  {
    if v == [] then Some([])
    else if |v| == 1 then None
    else if |v| == 2 then Some([First(v[0], v[1])])
    else if |v| == 3 then Some([First(v[0], v[1]), Second(v[1], v[2])])
    else
      match FromSextets(v[4..])
      case None => None
      case Some(rest) => Some([First(v[0], v[1]), Second(v[1], v[2]), Third(v[2], v[3])] + rest)
  }

  /** The sextets `Encode` writes. */
  function ToSextets(b: Bytes): seq<sextet>
  {
    if b == [] then []
    else if |b| == 1 then [High(b[0]), Mid(b[0], 0)]
    else if |b| == 2 then [High(b[0]), Mid(b[0], b[1]), Low(b[1], 0)]
    else [High(b[0]), Mid(b[0], b[1]), Low(b[1], b[2]), Last(b[2])] + ToSextets(b[3..])
  }

  function Chars(v: seq<sextet>): string
  {
    seq(|v|, i requires 0 <= i < |v| => ToChar(v[i]))
  }

  lemma {:induction false} EncodeIsSextets(b: Bytes)
    ensures Encode(b) == Chars(ToSextets(b))
  {
    if |b| > 2 {
      EncodeIsSextets(b[3..]);
    }
  }

  /** An encoding is its sextets, group by group; a short last group is filled up with zero bits. */
  lemma EncodeIsGroups(x: byte, y: byte, z: byte, rest: Bytes)
    ensures Encode([x, y, z] + rest)
         == [ALPHABET[High(x)], ALPHABET[Mid(x, y)], ALPHABET[Low(y, z)], ALPHABET[Last(z)]] + Encode(rest)
    ensures Encode([x, y]) == [ALPHABET[High(x)], ALPHABET[Mid(x, y)], ALPHABET[Low(y, 0)]]
    ensures Encode([x]) == [ALPHABET[High(x)], ALPHABET[Mid(x, 0)]]
  {
    CharIsOfTheAlphabet(High(x));
    CharIsOfTheAlphabet(Mid(x, y));
    CharIsOfTheAlphabet(Low(y, z));
    CharIsOfTheAlphabet(Last(z));
    CharIsOfTheAlphabet(Low(y, 0));
    CharIsOfTheAlphabet(Mid(x, 0));
    assert ([x, y, z] + rest)[3..] == rest;
  }

  lemma {:induction false} CharsReadBack(v: seq<sextet>)
    ensures Sextets(Chars(v)) == Some(v)
  {
    if v != [] {
      CharReadsBack(v[0]);
      assert Chars(v)[1..] == Chars(v[1..]);
      CharsReadBack(v[1..]);
      assert v == [v[0]] + v[1..];
    }
  }

  lemma GroupReadsBack(x: byte, y: byte, z: byte, rest: seq<sextet>)
    ensures var v := [High(x), Mid(x, y), Low(y, z), Last(z)] + rest;
            FromSextets(v) == match FromSextets(rest) case None => None case Some(b) => Some([x, y, z] + b)
  {
    var v := [High(x), Mid(x, y), Low(y, z), Last(z)] + rest;
    assert v[4..] == rest;
    BytesReadBack(x, y, z);
  }

  lemma ShortGroups(p: sextet, q: sextet, r: sextet)
    ensures FromSextets([p, q]) == Some([First(p, q)])
    ensures FromSextets([p, q, r]) == Some([First(p, q), Second(q, r)])
  {
  }

  lemma OneByteReadsBack(x: byte, y: byte)
    requires y == 0
    ensures FromSextets([High(x), Mid(x, y)]) == Some([x])
  {
    BytesReadBack(x, y, y);
    ShortGroups(High(x), Mid(x, y), Mid(x, y));
  }

  lemma TwoBytesReadBack(x: byte, y: byte, z: byte)
    requires z == 0
    ensures FromSextets([High(x), Mid(x, y), Low(y, z)]) == Some([x, y])
  {
    BytesReadBack(x, y, z);
    ShortGroups(High(x), Mid(x, y), Low(y, z));
  }

  lemma {:induction false} SextetsReadBack(b: Bytes)
    ensures FromSextets(ToSextets(b)) == Some(b)
  {
    if |b| == 1 {
      OneByteReadsBack(b[0], 0);
      assert b == [b[0]];
    } else if |b| == 2 {
      TwoBytesReadBack(b[0], b[1], 0);
      assert b == [b[0], b[1]];
    } else if |b| > 2 {
      GroupReadsBack(b[0], b[1], b[2], ToSextets(b[3..]));
      SextetsReadBack(b[3..]);
      assert b == [b[0], b[1], b[2]] + b[3..];
    }
  }

  lemma DecodeInvertsEncode(b: Bytes)
    ensures Decode(Encode(b)) == Some(b)
  {
    EncodeIsSextets(b);
    CharsReadBack(ToSextets(b));
    SextetsReadBack(b);
  }

  /** An encoding can stand in a `$`-separated record. */
  lemma EncodeIsFree(b: Bytes)
    ensures Text.Free(Encode(b), '$')
  {
    EncodeIsSextets(b);
    var v := ToSextets(b);
    forall i | 0 <= i < |Chars(v)| ensures Chars(v)[i] != '$' {
      CharReadsBack(v[i]);
    }
  }

  /** The same groups, except for the spare bits of a short last one. */
  predicate AlikeButSpare(v: seq<sextet>, w: seq<sextet>)
  {
    && |v| == |w|
    && if |v| == 2 then v[0] == w[0] && v[1] / 16 == w[1] / 16
       else if |v| == 3 then v[..2] == w[..2] && v[2] / 4 == w[2] / 4
       else |v| >= 4 ==> v[..4] == w[..4] && AlikeButSpare(v[4..], w[4..])
  }

  lemma FirstInjective(p: sextet, q: sextet, p': sextet, q': sextet)
    ensures First(p, q) == First(p', q') <==> p == p' && q / 16 == q' / 16
  {
  }

  lemma SecondInjective(q: sextet, r: sextet, q': sextet, r': sextet)
    ensures Second(q, r) == Second(q', r') <==> q % 16 == q' % 16 && r / 4 == r' / 4
  {
  }

  lemma ThirdInjective(r: sextet, t: sextet, r': sextet, t': sextet)
    ensures Third(r, t) == Third(r', t') <==> r % 4 == r' % 4 && t == t'
  {
  }

  lemma GroupInjective(v: seq<sextet>, w: seq<sextet>)
    requires |v| >= 4 && |w| >= 4
    ensures (First(v[0], v[1]) == First(w[0], w[1]) && Second(v[1], v[2]) == Second(w[1], w[2])
             && Third(v[2], v[3]) == Third(w[2], w[3]))
            <==> v[..4] == w[..4]
  {
    FirstInjective(v[0], v[1], w[0], w[1]);
    SecondInjective(v[1], v[2], w[1], w[2]);
    ThirdInjective(v[2], v[3], w[2], w[3]);
  }

  lemma {:induction false} LoneSextetFails(v: seq<sextet>)
    ensures FromSextets(v).Some? <==> |v| % 4 != 1
  {
    if |v| >= 4 {
      LoneSextetFails(v[4..]);
      assert |v[4..]| % 4 == |v| % 4;
    }
  }

  lemma {:induction false} DecodedLength(v: seq<sextet>)
    requires FromSextets(v).Some?
    ensures 4 * |FromSextets(v).value| <= 3 * |v| < 4 * |FromSextets(v).value| + 4
  {
    if |v| >= 4 {
      GroupSplits(v);
      DecodedLength(v[4..]);
    }
  }

  lemma GroupSplits(v: seq<sextet>)
    requires |v| >= 4 && FromSextets(v).Some?
    ensures FromSextets(v[4..]).Some?
    ensures FromSextets(v).value[..3] == [First(v[0], v[1]), Second(v[1], v[2]), Third(v[2], v[3])]
    ensures FromSextets(v).value[3..] == FromSextets(v[4..]).value
  {
  }

  lemma ThreeSextetsInjective(p: sextet, q: sextet, r: sextet, p': sextet, q': sextet, r': sextet)
    ensures First(p, q) == First(p', q') && Second(q, r) == Second(q', r')
            <==> p == p' && q == q' && r / 4 == r' / 4
  {
    FirstInjective(p, q, p', q');
    SecondInjective(q, r, q', r');
  }

  lemma ShortGroupsAlike(v: seq<sextet>, w: seq<sextet>)
    requires |v| == |w| && (|v| == 2 || |v| == 3)
    ensures FromSextets(v) == FromSextets(w) <==> AlikeButSpare(v, w)
  {
    if |v| == 2 {
      FirstInjective(v[0], v[1], w[0], w[1]);
      assert FromSextets(v).value[0] == First(v[0], v[1]) && FromSextets(w).value[0] == First(w[0], w[1]);
    } else {
      ThreeSextetsInjective(v[0], v[1], v[2], w[0], w[1], w[2]);
      var b, d := FromSextets(v).value, FromSextets(w).value;
      assert b[0] == First(v[0], v[1]) && b[1] == Second(v[1], v[2]);
      assert d[0] == First(w[0], w[1]) && d[1] == Second(w[1], w[2]);
      assert v[..2] == [v[0], v[1]] && w[..2] == [w[0], w[1]];
    }
  }

  lemma GroupsDecodeAlike(v: seq<sextet>, w: seq<sextet>)
    requires |v| >= 4 && |w| >= 4 && FromSextets(v).Some? && FromSextets(w).Some?
    ensures FromSextets(v) == FromSextets(w) <==> v[..4] == w[..4] && FromSextets(v[4..]) == FromSextets(w[4..])
  {
    var b, d := FromSextets(v).value, FromSextets(w).value;
    GroupInjective(v, w);
    GroupSplits(v);
    GroupSplits(w);
    assert b == b[..3] + b[3..] && d == d[..3] + d[3..];
    if b == d { assert b[..3][0] == d[..3][0] && b[..3][1] == d[..3][1] && b[..3][2] == d[..3][2]; }
  }

  lemma {:induction false} SameLengthDecodesAlike(v: seq<sextet>, w: seq<sextet>)
    requires |v| == |w| && FromSextets(v).Some? && FromSextets(w).Some?
    ensures FromSextets(v) == FromSextets(w) <==> AlikeButSpare(v, w)
  {
    if |v| == 2 || |v| == 3 {
      ShortGroupsAlike(v, w);
    } else if |v| >= 4 {
      GroupsDecodeAlike(v, w);
      GroupSplits(v);
      GroupSplits(w);
      SameLengthDecodesAlike(v[4..], w[4..]);
    }
  }

  lemma FullGroups(n: nat, size: nat)
    requires 3 * n == 4 * size
    ensures (n + 1) % 4 == 1
  {
    assert n + 1 == 4 * (n - size) + 1;
  }

  lemma LengthTells(m: nat, n: nat, size: nat)
    requires m % 4 != 1 && n % 4 != 1
    requires 4 * size <= 3 * m < 4 * size + 4 && 4 * size <= 3 * n < 4 * size + 4
    ensures m == n
  {
    if m + 1 == n {
      FullGroups(m, size);
    } else if n + 1 == m {
      FullGroups(n, size);
    }
  }

  lemma SextetsDecodeAlike(v: seq<sextet>, w: seq<sextet>)
    requires |v| % 4 != 1
    ensures FromSextets(v).Some?
    ensures FromSextets(v) == FromSextets(w) <==> AlikeButSpare(v, w)
  {
    LoneSextetFails(v);
    LoneSextetFails(w);
    if |v| == |w| {
      SameLengthDecodesAlike(v, w);
    } else if FromSextets(v) == FromSextets(w) {
      DecodedLength(v);
      DecodedLength(w);
      LengthTells(|v|, |w|, |FromSextets(v).value|);
    }
  }

  /**
   The decoder is not strict: two texts decode to the same bytes exactly when, line breaks
   left out, they differ only in the spare bits of a short last group.
   */
  lemma DecodeDropsSpareBits(s: string, t: string)
    requires Decode(s).Some?
    ensures Decode(s) == Decode(t)
            <==> Sextets(t).Some? && AlikeButSpare(Sextets(s).value, Sextets(t).value)
  {
    LoneSextetFails(Sextets(s).value);
    if Sextets(t).Some? { SextetsDecodeAlike(Sextets(s).value, Sextets(t).value); }
  }

  lemma {:induction false} ForeignCharacterHasNoSextets(s: string, i: nat)
    requires i < |s| && s[i] !in ALPHABET && s[i] != '\n' && s[i] != '\r'
    ensures Sextets(s) == None
  {
    if i == 0 {
      if FromChar(s[0]).Some? { ValueIsItsPosition(s[0], FromChar(s[0]).value); }
    } else {
      ForeignCharacterHasNoSextets(s[1..], i - 1);
    }
  }

  /** A character that is neither of the alphabet nor a line break makes a text unreadable. */
  lemma ForeignCharacterIsRefused(s: string, i: nat)
    requires i < |s| && s[i] !in ALPHABET && s[i] != '\n' && s[i] != '\r'
    ensures Decode(s) == None
  {
    ForeignCharacterHasNoSextets(s, i);
  }

  lemma {:induction false} LineBreaksAreIgnored(s: string, t: string)
    ensures Sextets(s + "\n" + t) == Sextets(s + "\r" + t) == Sextets(s + t)
  {
    var lf, cr, all := s + "\n" + t, s + "\r" + t, s + t;
    if s == "" {
      assert all == t && lf[1..] == t && cr[1..] == t;
    } else {
      LineBreaksAreIgnored(s[1..], t);
      assert all[1..] == s[1..] + t && lf[1..] == s[1..] + "\n" + t && cr[1..] == s[1..] + "\r" + t;
    }
  }
}
