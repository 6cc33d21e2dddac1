/**
 The encoded password hashes of `internal/auth/password.go`: a `$`-separated record that
 `HashArgon2` prints and `VerifyArgon2` and `NeedsRehash` parse.
 */
module PasswordHash {
  import opened Common
  import opened Text
  import Base64

  const ARGON2_TIME: nat := 2
  const ARGON2_MEMORY: nat := 19456
  const ARGON2_THREADS: nat := 1
  const ARGON2_KEY_LEN: nat := 32
  const ARGON2_VERSION: nat := 19

  /** Argon2id (RFC 9106): input, salt, time, memory, threads, key length. */
  type Kdf = (Bytes, Bytes, nat, nat, nat, nat) -> Bytes

  // ---------- Scanning numbers, as `Sscanf` does ----------

  datatype Scanned<T> = Scanned(value: T, rest: string)

  /** Blanks before a number are skipped, but a newline among them is an error. */
  function SkipSpace(s: string): Option<string>
  {
    if s == "" then Some(s)
    else if s[0] == '\n' then None
    else if IsSpace(s[0]) then SkipSpace(s[1..])
    else Some(s)
  }

  function DigitRun(s: string): (n: nat)
    ensures n <= |s| && AllDigits(s[..n])
  {
    if s == "" || !IsDigit(s[0]) then 0 else
      var n := DigitRun(s[1..]);
      assert s[..n + 1] == [s[0]] + s[1..][..n];
      n + 1
  }

  function Literal(text: string, s: string): Option<string>
  {
    if text <= s then Some(s[|text|..]) else None
  }

  /** `%d` into an unsigned integer below `limit`. */
  function ScanUint(s: string, limit: nat): Option<Scanned<nat>>
  {
    match SkipSpace(s)
    case None => None
    case Some(t) =>
      var n := DigitRun(t);
      if n == 0 || DigitsValue(t[..n]) >= limit then None
      else Some(Scanned(DigitsValue(t[..n]), t[n..]))
  }

  /** `%d` into a signed 64-bit integer, with an optional sign. */
  function ScanInt(s: string): Option<Scanned<int>>
  {
    match SkipSpace(s)
    case None => None
    case Some(t) =>
      var signed := t != "" && (t[0] == '+' || t[0] == '-');
      var u := if signed then t[1..] else t;
      var n := DigitRun(u);
      if n == 0 then None else
        var m: int := DigitsValue(u[..n]);
        var v := if signed && t[0] == '-' then -m else m;
        if -0x8000_0000_0000_0000 <= v < 0x8000_0000_0000_0000 then Some(Scanned(v, u[n..])) else None
  }

  datatype Params = Params(memory: nat, timeCost: nat, threads: nat)

  const CURRENT := Params(ARGON2_MEMORY, ARGON2_TIME, ARGON2_THREADS)

  /** A literal, then a number. */
  function ScanField(text: string, s: string, limit: nat): Option<Scanned<nat>>
  {
    match Literal(text, s)
    case None => None
    case Some(t) => ScanUint(t, limit)
  }

  /** `Sscanf(s, "m=%d,t=%d,p=%d", …)`; what follows the last number is ignored. */
  function ScanParams(s: string): Option<Params>
  {
    match ScanField("m=", s, 0x1_0000_0000)
    case None => None
    case Some(m) =>
      match ScanField(",t=", m.rest, 0x1_0000_0000)
      case None => None
      case Some(t) =>
        match ScanField(",p=", t.rest, 0x100)
        case None => None
        case Some(p) => Some(Params(m.value, t.value, p.value))
  }

  /** `Sscanf(s, "v=%d", …)`. */
  function ScanVersion(s: string): Option<int>
  {
    match Literal("v=", s)
    case None => None
    case Some(t) =>
      match ScanInt(t)
      case None => None
      case Some(v) => Some(v.value)
  }

  // ---------- The three operations ----------

  /** `$argon2id$v=…$m=…,t=…,p=…$salt$digest` */
  function Encoded(version: nat, p: Params, salt: Bytes, digest: Bytes): string
  {
    "$" + ("argon2id" + "$" + (VersionText(version) + "$" + (ParamsText(p) + "$"
    + (Base64.Encode(salt) + "$" + Base64.Encode(digest)))))
  }

  function VersionText(version: nat): string
  {
    "v=" + Digits(version)
  }

  function ParamsText(p: Params): string
  {
    "m=" + (Digits(p.memory) + (",t=" + (Digits(p.timeCost) + (",p=" + Digits(p.threads)))))
  }

  /** `salt` is what the random source returned. */
  function HashArgon2(input: Bytes, salt: Bytes, kdf: Kdf): string
  {
    Encoded(ARGON2_VERSION, CURRENT, salt,
            kdf(input, salt, ARGON2_TIME, ARGON2_MEMORY, ARGON2_THREADS, ARGON2_KEY_LEN))
  }

  datatype HashError = InvalidFormat | UnsupportedType | BadVersion | BadParameters | BadSalt | BadDigest

  /** What the checks of `VerifyArgon2` read out of a string. */
  datatype Record = Record(version: int, params: Params, salt: Bytes, digest: Bytes)

  function ReadRecord(encodedHash: string): Result<Record, HashError>
  {
    var parts := Split(encodedHash, '$');
    if |parts| != 6 then Err(InvalidFormat)
    else if parts[1] != "argon2id" then Err(UnsupportedType)
    else ReadFields(parts[2], parts[3], parts[4], parts[5])
  }

  function ReadFields(version: string, params: string, salt: string, digest: string): Result<Record, HashError>
  {
    var v, p, s, d := ScanVersion(version), ScanParams(params), Base64.Decode(salt), Base64.Decode(digest);
    if v.None? then Err(BadVersion)
    else if p.None? then Err(BadParameters)
    else if s.None? then Err(BadSalt)
    else if d.None? then Err(BadDigest)
    else Ok(Record(v.value, p.value, s.value, d.value))
  }

  /** Whether `input` derives the digest of a record with the record's own parameters. */
  predicate Derives(input: Bytes, r: Record, kdf: Kdf)
  {
    kdf(input, r.salt, r.params.timeCost, r.params.memory, r.params.threads, |r.digest|) == r.digest
  }

  /** The version is read but not compared with anything. */
  function VerifyArgon2(input: Bytes, encodedHash: string, kdf: Kdf): Result<bool, HashError>
  {
    match ReadRecord(encodedHash)
    case Err(e) => Err(e)
    case Ok(r) => Ok(Derives(input, r, kdf))
  }

  predicate NeedsRehash(encodedHash: string)
  {
    var parts := Split(encodedHash, '$');
    if |parts| != 6 || parts[1] != "argon2id" then true
    else
      match ScanParams(parts[3])
      case None => true
      case Some(p) =>
        p.memory != ARGON2_MEMORY || p.timeCost != ARGON2_TIME || p.threads != ARGON2_THREADS
  }

  // ---------- Numbers read back ----------

  lemma {:induction false} DigitRunStops(d: string, rest: string)
    requires AllDigits(d) && (rest == "" || !IsDigit(rest[0]))
    ensures DigitRun(d + rest) == |d|
  {
    if d == "" {
      assert d + rest == rest;
    } else {
      assert forall i :: 0 <= i < |d[1..]| ==> d[1..][i] == d[i + 1];
      DigitRunStops(d[1..], rest);
      assert (d + rest)[1..] == d[1..] + rest;
    }
  }

  lemma ScanUintReadsBack(n: nat, rest: string, limit: nat)
    requires n < limit && (rest == "" || !IsDigit(rest[0]))
    ensures ScanUint(Digits(n) + rest, limit) == Some(Scanned(n, rest))
  {
    var d := Digits(n);
    var s := d + rest;
    assert IsDigit(s[0]) && !IsSpace(s[0]);
    DigitRunStops(d, rest);
    DigitsReadBack(n);
    assert s[..|d|] == d && s[|d|..] == rest;
  }

  /** A number that does not fit is an error, and so is a newline before one; other blanks are skipped. */
  lemma ScanUintRefuses(n: nat, rest: string, limit: nat)
    requires n >= limit && (rest == "" || !IsDigit(rest[0]))
    ensures ScanUint(Digits(n) + rest, limit) == None
  {
    var d := Digits(n);
    var s := d + rest;
    assert IsDigit(s[0]) && !IsSpace(s[0]);
    DigitRunStops(d, rest);
    DigitsReadBack(n);
    assert s[..|d|] == d;
  }

  lemma ScanSkipsBlanks(c: char, s: string, limit: nat)
    requires IsSpace(c)
    ensures ScanUint([c] + s, limit) == if c == '\n' then None else ScanUint(s, limit)
    ensures ScanInt([c] + s) == if c == '\n' then None else ScanInt(s)
  {
    assert ([c] + s)[1..] == s;
  }

  lemma ScanFieldReadsBack(text: string, n: nat, rest: string, limit: nat)
    requires n < limit && (rest == "" || !IsDigit(rest[0]))
    ensures ScanField(text, text + (Digits(n) + rest), limit) == Some(Scanned(n, rest))
  {
    var s := text + (Digits(n) + rest);
    assert text <= s && s[|text|..] == Digits(n) + rest;
    ScanUintReadsBack(n, rest, limit);
  }

  predicate InRange(p: Params)
  {
    p.memory < 0x1_0000_0000 && p.timeCost < 0x1_0000_0000 && p.threads < 0x100
  }

  lemma ParamsReadBack(p: Params)
    requires InRange(p)
    ensures ScanParams(ParamsText(p)) == Some(p)
  {
    var atP := ",p=" + Digits(p.threads);
    var atT := ",t=" + (Digits(p.timeCost) + atP);
    assert atP[0] == ',' && atT[0] == ',';
    ScanFieldReadsBack("m=", p.memory, atT, 0x1_0000_0000);
    ScanFieldReadsBack(",t=", p.timeCost, atP, 0x1_0000_0000);
    assert Digits(p.threads) + "" == Digits(p.threads);
    ScanFieldReadsBack(",p=", p.threads, "", 0x100);
  }

  lemma ParamsTextBefore(p: Params, tail: string)
    ensures ParamsText(p) + tail
         == "m=" + (Digits(p.memory) + (",t=" + (Digits(p.timeCost) + (",p=" + (Digits(p.threads) + tail)))))
  {
    var m, t, n := Digits(p.memory), Digits(p.timeCost), Digits(p.threads);
    Rejoin("m=", m + (",t=" + (t + (",p=" + n))), tail);
    Rejoin(m, ",t=" + (t + (",p=" + n)), tail);
    Rejoin(",t=", t + (",p=" + n), tail);
    Rejoin(t, ",p=" + n, tail);
    Rejoin(",p=", n, tail);
  }

  lemma Rejoin(a: string, b: string, c: string)
    ensures a + b + c == a + (b + c)
  {
  }

  /** What follows the last number is ignored. */
  lemma ParamsIgnoreTail(p: Params, tail: string)
    requires InRange(p) && tail != "" && !IsDigit(tail[0])
    ensures ScanParams(ParamsText(p) + tail) == Some(p)
  {
    var atP := ",p=" + (Digits(p.threads) + tail);
    var atT := ",t=" + (Digits(p.timeCost) + atP);
    assert atP[0] == ',' && atT[0] == ',';
    ScanFieldReadsBack("m=", p.memory, atT, 0x1_0000_0000);
    ScanFieldReadsBack(",t=", p.timeCost, atP, 0x1_0000_0000);
    ScanFieldReadsBack(",p=", p.threads, tail, 0x100);
    ParamsTextBefore(p, tail);
  }

  lemma VersionReadsBack(version: nat)
    requires version < 0x8000_0000_0000_0000
    ensures ScanVersion(VersionText(version)) == Some(version)
  {
    var d := Digits(version);
    assert VersionText(version)[2..] == d;
    assert IsDigit(d[0]) && !IsSpace(d[0]);
    DigitRunStops(d, "");
    assert d + "" == d && d[..|d|] == d;
    DigitsReadBack(version);
  }

  lemma NegativeReadsBack(m: nat)
    requires 0 < m <= 0x8000_0000_0000_0000
    ensures ScanInt("-" + Digits(m)) == Some(Scanned(0 - m, ""))
  {
    var d := Digits(m);
    var s := "-" + d;
    assert s[1..] == d && !IsSpace(s[0]);
    DigitRunStops(d, "");
    assert d + "" == d && d[..|d|] == d;
    DigitsReadBack(m);
  }

  /** Any 64-bit version is read, with a minus sign or without. */
  lemma SignedVersionReadsBack(version: int, s: string)
    requires -0x8000_0000_0000_0000 <= version < 0x8000_0000_0000_0000 && s == FormatInt(version)
    ensures ScanVersion("v=" + s) == Some(version)
  {
    if version >= 0 {
      VersionReadsBack(version);
    } else {
      NegativeReadsBack(-version);
      assert ("v=" + s)[2..] == s;
    }
  }

  // ---------- The record splits into its fields ----------

  lemma FreeJoins(a: string, b: string, c: char)
    requires Free(a, c) && Free(b, c)
    ensures Free(a + b, c)
  {
  }

  lemma FieldsAreFree(version: nat, p: Params)
    ensures Free(VersionText(version), '$') && Free(ParamsText(p), '$')
  {
    FreeJoins("v=", Digits(version), '$');
    FreeJoins(",p=", Digits(p.threads), '$');
    FreeJoins(Digits(p.timeCost), ",p=" + Digits(p.threads), '$');
    FreeJoins(",t=", Digits(p.timeCost) + (",p=" + Digits(p.threads)), '$');
    FreeJoins(Digits(p.memory), ",t=" + (Digits(p.timeCost) + (",p=" + Digits(p.threads))), '$');
    FreeJoins("m=", Digits(p.memory) + (",t=" + (Digits(p.timeCost) + (",p=" + Digits(p.threads)))), '$');
  }

  function Fields(version: nat, p: Params, salt: Bytes, digest: Bytes): seq<string>
  {
    ["", "argon2id", VersionText(version), ParamsText(p), Base64.Encode(salt), Base64.Encode(digest)]
  }

  lemma SplitField(head: string, tail: string, fields: seq<string>)
    requires Free(head, '$') && Split(tail, '$') == fields
    ensures Split(head + "$" + tail, '$') == [head] + fields
  {
    SplitCuts(head, '$', tail);
  }

  /** Six fields, whatever the salt and digest hold. */
  lemma EncodedSplits(version: nat, p: Params, salt: Bytes, digest: Bytes)
    ensures Split(Encoded(version, p, salt, digest), '$') == Fields(version, p, salt, digest)
  {
    var salt64, digest64 := Base64.Encode(salt), Base64.Encode(digest);
    Base64.EncodeIsFree(salt);
    Base64.EncodeIsFree(digest);
    FieldsAreFree(version, p);
    SplitWhole(digest64, '$');
    var at4 := salt64 + "$" + digest64;
    var at3 := ParamsText(p) + "$" + at4;
    var at2 := VersionText(version) + "$" + at3;
    var at1 := "argon2id" + "$" + at2;
    SplitField(salt64, digest64, [digest64]);
    SplitField(ParamsText(p), at4, Split(at4, '$'));
    SplitField(VersionText(version), at3, Split(at3, '$'));
    SplitField("argon2id", at2, Split(at2, '$'));
    SplitField("", at1, Split(at1, '$'));
    assert Encoded(version, p, salt, digest) == "" + "$" + at1 by {
      assert ParamsText(p) + "$" + at4 == ParamsText(p) + "$" + (salt64 + "$" + digest64);
    }
  }

  // ---------- What the operations promise each other ----------

  /** Any printed record parses back to itself. */
  lemma EncodedReadsBack(version: nat, p: Params, salt: Bytes, digest: Bytes)
    requires version < 0x8000_0000_0000_0000 && InRange(p)
    ensures ReadRecord(Encoded(version, p, salt, digest)) == Ok(Record(version, p, salt, digest))
  {
    EncodedSplits(version, p, salt, digest);
    VersionReadsBack(version);
    ParamsReadBack(p);
    Base64.DecodeInvertsEncode(salt);
    Base64.DecodeInvertsEncode(digest);
  }

  /** The three numbers of the current parameters, in decimal. */
  lemma CurrentInDecimal()
    ensures Digits(19) == "19" && Digits(19456) == "19456" && Digits(2) == "2" && Digits(1) == "1"
  {
    assert Digits(19) == Digits(1) + "9";
    assert Digits(19456) == Digits(1945) + "6" && Digits(1945) == Digits(194) + "5" && Digits(194) == Digits(19) + "4";
  }

  /** What a stored hash looks like, field by field. */
  lemma HashText(input: Bytes, salt: Bytes, kdf: Kdf)
    ensures Split(HashArgon2(input, salt, kdf), '$')
         == ["", "argon2id", "v=19", "m=19456,t=2,p=1", Base64.Encode(salt), Base64.Encode(kdf(input, salt, 2, 19456, 1, 32))]
  {
    CurrentInDecimal();
    assert VersionText(19) == "v=19";
    assert ParamsText(CURRENT) == "m=19456,t=2,p=1";
    EncodedSplits(ARGON2_VERSION, CURRENT, salt, kdf(input, salt, 2, 19456, 1, 32));
  }

  /** Verification derives with the record's own parameters, salt and key length, whatever its version. */
  lemma VerifyUsesTheRecord(input: Bytes, version: nat, p: Params, salt: Bytes, digest: Bytes, kdf: Kdf)
    requires version < 0x8000_0000_0000_0000 && InRange(p)
    ensures VerifyArgon2(input, Encoded(version, p, salt, digest), kdf)
         == Ok(kdf(input, salt, p.timeCost, p.memory, p.threads, |digest|) == digest)
  {
    EncodedReadsBack(version, p, salt, digest);
  }

  // ---------- Strings that were not printed here ----------

  lemma {:induction false} PartsAreCounted(s: string, sep: char)
    ensures |Split(s, sep)| == multiset(s)[sep] + 1
  {
    if s != "" {
      assert s == [s[0]] + s[1..];
      PartsAreCounted(s[1..], sep);
    }
  }

  /** The first thing that cannot be read decides the error. */
  lemma ErrorIsTheFirst(h: string)
    ensures ReadRecord(h) == Err(InvalidFormat) <==> multiset(h)['$'] != 5
    ensures multiset(h)['$'] == 5 ==>
              var f := Split(h, '$');
              && (ReadRecord(h) == Err(UnsupportedType) <==> f[1] != "argon2id")
              && (ReadRecord(h).Ok? <==>
                    && f[1] == "argon2id" && ScanVersion(f[2]).Some? && ScanParams(f[3]).Some?
                    && Base64.Decode(f[4]).Some? && Base64.Decode(f[5]).Some?)
              && (ReadRecord(h) == Err(BadVersion) <==> f[1] == "argon2id" && ScanVersion(f[2]).None?)
              && (ReadRecord(h) == Err(BadParameters) ==> ScanVersion(f[2]).Some? && ScanParams(f[3]).None?)
              && (ReadRecord(h) == Err(BadSalt) ==> ScanParams(f[3]).Some? && Base64.Decode(f[4]).None?)
              && (ReadRecord(h) == Err(BadDigest) ==> Base64.Decode(f[4]).Some? && Base64.Decode(f[5]).None?)
  {
    PartsAreCounted(h, '$');
  }

  /**
   A string needs a rehash unless it has five separators, the type argon2id and exactly the
   current parameters; so every hash of another kind or of unreadable parameters does.
   */
  lemma RehashUnlessCurrent(h: string)
    ensures |Split(h, '$')| == 6 <==> multiset(h)['$'] == 5
    ensures NeedsRehash(h) <==>
            |Split(h, '$')| != 6 || Split(h, '$')[1] != "argon2id"
            || ScanParams(Split(h, '$')[3]) != Some(Params(19456, 2, 1))
    ensures ReadRecord(h) in {Err(InvalidFormat), Err(UnsupportedType), Err(BadParameters)} ==> NeedsRehash(h)
  {
    PartsAreCounted(h, '$');
  }

  /** A stored hash accepts an input exactly when it derives the same key; its own input always does. */
  lemma HashVerifies(input: Bytes, other: Bytes, salt: Bytes, kdf: Kdf)
    requires |kdf(input, salt, ARGON2_TIME, ARGON2_MEMORY, ARGON2_THREADS, ARGON2_KEY_LEN)| == ARGON2_KEY_LEN
    ensures VerifyArgon2(input, HashArgon2(input, salt, kdf), kdf) == Ok(true)
    ensures VerifyArgon2(other, HashArgon2(input, salt, kdf), kdf) ==
            Ok(kdf(other, salt, ARGON2_TIME, ARGON2_MEMORY, ARGON2_THREADS, ARGON2_KEY_LEN)
               == kdf(input, salt, ARGON2_TIME, ARGON2_MEMORY, ARGON2_THREADS, ARGON2_KEY_LEN))
  {
    var digest := kdf(input, salt, ARGON2_TIME, ARGON2_MEMORY, ARGON2_THREADS, ARGON2_KEY_LEN);
    EncodedReadsBack(ARGON2_VERSION, CURRENT, salt, digest);
  }

  /**
   On any string that verification can read, printed here or not, a rehash is needed
   exactly when verification derives with parameters that are not the current ones.
   */
  lemma RehashDecidesTheParamsUsed(encodedHash: string)
    requires ReadRecord(encodedHash).Ok?
    ensures NeedsRehash(encodedHash) <==> ReadRecord(encodedHash).value.params != CURRENT
  {
    var parts := Split(encodedHash, '$');
    assert ReadRecord(encodedHash).value.params == ScanParams(parts[3]).value;
  }

  /** A printed record needs a rehash exactly when its parameters are not the current ones. */
  lemma RehashMeansOtherParams(version: nat, p: Params, salt: Bytes, digest: Bytes)
    requires version < 0x8000_0000_0000_0000 && InRange(p)
    ensures NeedsRehash(Encoded(version, p, salt, digest)) <==> p != CURRENT
  {
    EncodedReadsBack(version, p, salt, digest);
    RehashDecidesTheParamsUsed(Encoded(version, p, salt, digest));
  }

  /** Rehashing settles: a fresh hash never asks to be made again. */
  lemma FreshHashIsCurrent(input: Bytes, salt: Bytes, kdf: Kdf)
    ensures !NeedsRehash(HashArgon2(input, salt, kdf))
  {
    RehashMeansOtherParams(ARGON2_VERSION, CURRENT, salt,
                           kdf(input, salt, ARGON2_TIME, ARGON2_MEMORY, ARGON2_THREADS, ARGON2_KEY_LEN));
  }

  /** Distinct records print distinct strings. */
  lemma EncodedInjective(a: Record, b: Record)
    requires 0 <= a.version < 0x8000_0000_0000_0000 && InRange(a.params)
    requires 0 <= b.version < 0x8000_0000_0000_0000 && InRange(b.params)
    ensures Encoded(a.version, a.params, a.salt, a.digest) == Encoded(b.version, b.params, b.salt, b.digest) <==> a == b
  {
    EncodedReadsBack(a.version, a.params, a.salt, a.digest);
    EncodedReadsBack(b.version, b.params, b.salt, b.digest);
  }
}
