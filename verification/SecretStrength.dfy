/**
 The session-secret checks of `internal/config/config.go`: the failure-function scan that
 finds the least period of a secret, the distinct-byte count, and the order in which
 `Load` applies them.
 */
module SecretStrength {

  import opened Common

  // ---------- Borders and periods ----------

  /** The first `k` elements of `s` are also its last `k`, and `k` is not the whole of `s`. */
  ghost predicate IsBorder<T>(s: seq<T>, k: int)
  {
    0 <= k < |s| && s[..k] == s[|s| - k..]
  }

  ghost predicate IsLongestBorder<T>(s: seq<T>, k: int)
  {
    IsBorder(s, k) && forall m :: IsBorder(s, m) ==> m <= k
  }

  /** Shifting `s` by `p` leaves every overlapping element unchanged. */
  ghost predicate IsPeriod<T>(s: seq<T>, p: int)
  {
    1 <= p <= |s| && forall i :: 0 <= i < |s| - p ==> s[i] == s[i + p]
  }

  ghost predicate IsLeastPeriod<T>(s: seq<T>, p: int)
  {
    IsPeriod(s, p) && forall q :: IsPeriod(s, q) ==> p <= q
  }

  /** `s` is a block of at most half its length, repeated to fill it. */
  ghost predicate HasTwoRepeats<T>(s: seq<T>)
  {
    exists p :: IsPeriod(s, p) && 2 * p <= |s|
  }

  /** Border/period duality: a border of length `k` is a shift by `|s| - k`. */
  lemma BorderIsPeriod<T>(s: seq<T>, k: int)
    requires 0 <= k < |s|
    ensures IsBorder(s, k) <==> IsPeriod(s, |s| - k)
  {
    var p := |s| - k;
    if IsBorder(s, k) {
      forall i | 0 <= i < k ensures s[i] == s[i + p] {
        assert s[..k][i] == s[p..][i];
      }
    }
    if IsPeriod(s, p) {
      assert s[..k] == s[p..];
    }
  }

  /** What the final subtraction `n - fail[n-1]` computes: the least period. */
  lemma LongestBorderIsLeastPeriod<T>(s: seq<T>, k: int)
    requires 0 <= k < |s|
    ensures IsLongestBorder(s, k) <==> IsLeastPeriod(s, |s| - k)
  {
    BorderIsPeriod(s, k);
    if IsLongestBorder(s, k) {
      forall q | IsPeriod(s, q) ensures |s| - k <= q {
        BorderIsPeriod(s, |s| - q);
        assert IsBorder(s, |s| - q);
      }
    }
    if IsLeastPeriod(s, |s| - k) {
      forall m | IsBorder(s, m) ensures m <= k {
        BorderIsPeriod(s, m);
        assert IsPeriod(s, |s| - m);
      }
    }
  }

  /** The offset of position `i` inside its block of length `p`. */
  function BlockOffset(i: nat, p: nat): (r: nat)
    requires p > 0
    ensures r < p
  {
    if i < p then i else BlockOffset(i - p, p)
  }

  /** `s` is its first `p` elements written over and over, the last copy possibly cut short. */
  ghost predicate IsRepeatedBlock<T>(s: seq<T>, p: int)
  {
    1 <= p <= |s| && forall i :: 0 <= i < |s| ==> s[i] == s[BlockOffset(i, p)]
  }

  /** A period is a block length. */
  lemma PeriodIsRepeatedBlock<T>(s: seq<T>, p: int)
    ensures IsPeriod(s, p) <==> IsRepeatedBlock(s, p)
  {
    if IsPeriod(s, p) {
      forall i | 0 <= i < |s| ensures s[i] == s[BlockOffset(i, p)] {
        PeriodReachesBack(s, p, i);
      }
    }
    if IsRepeatedBlock(s, p) {
      forall i | 0 <= i < |s| - p ensures s[i] == s[i + p] {
        assert s[i + p] == s[BlockOffset(i + p, p)] == s[BlockOffset(i, p)];
      }
    }
  }

  lemma {:induction false} PeriodReachesBack<T>(s: seq<T>, p: int, i: int)
    requires IsPeriod(s, p) && 0 <= i < |s|
    ensures s[i] == s[BlockOffset(i, p)]
    decreases i
  {
    if i >= p {
      PeriodReachesBack(s, p, i - p);
      assert s[i - p] == s[i - p + p];
    }
  }

  // ---------- How borders grow by one element ----------

  /** A border of a border is a border, and a shorter border is a border of a longer one. */
  lemma BorderOfBorder<T>(s: seq<T>, k: int, m: int)
    requires IsBorder(s, k) && 0 <= m < k
    ensures IsBorder(s, m) <==> IsBorder(s[..k], m)
  {
    var t := s[..k];
    assert t == s[|s| - k..];
    assert t[..m] == s[..m];
    assert t[k - m..] == s[|s| - m..] by {
      assert s[|s| - k..][k - m..] == s[|s| - m..];
    }
  }

  /** A nonempty border of `s + [c]` is a border of `s` whose next element is `c`. */
  lemma BorderExtends<T>(s: seq<T>, c: T, m: int)
    requires 0 <= m < |s|
    ensures IsBorder(s + [c], m + 1) <==> IsBorder(s, m) && s[m] == c
  {
    var t := s + [c];
    assert t[..m + 1] == s[..m] + [s[m]];
    assert t[|t| - (m + 1)..] == s[|s| - m..] + [c];
    if t[..m + 1] == t[|t| - (m + 1)..] {
      assert (s[..m] + [s[m]])[..m] == (s[|s| - m..] + [c])[..m];
      assert (s[..m] + [s[m]])[m] == (s[|s| - m..] + [c])[m];
      assert (s[..m] + [s[m]])[..m] == s[..m];
      assert (s[|s| - m..] + [c])[..m] == s[|s| - m..];
    }
  }

  /** No border of `s + [c]` is longer than `j + 1`. */
  ghost predicate BoundsNextBorder<T>(s: seq<T>, c: T, j: int)
  {
    forall m :: IsBorder(s + [c], m) ==> m <= j + 1
  }

  lemma LongestBorderBoundsNext<T>(s: seq<T>, c: T, j: int)
    requires IsLongestBorder(s, j)
    ensures BoundsNextBorder(s, c, j)
  {
    forall m | IsBorder(s + [c], m) ensures m <= j + 1 {
      if m > 0 { BorderExtends(s, c, m - 1); }
    }
  }

  /** One fallback `j = fail[j-1]` skips no candidate. */
  lemma FallbackSkipsNothing<T>(s: seq<T>, c: T, j: int, f: int)
    requires IsBorder(s, j) && j > 0 && s[j] != c
    requires IsLongestBorder(s[..j], f)
    requires BoundsNextBorder(s, c, j)
    ensures IsBorder(s, f)
    ensures BoundsNextBorder(s, c, f)
  {
    BorderOfBorder(s, j, f);
    forall m | IsBorder(s + [c], m) ensures m <= f + 1 {
      if m > 0 {
        BorderExtends(s, c, m - 1);
        if m - 1 < j { BorderOfBorder(s, j, m - 1); }
      }
    }
  }

  /** When the fallbacks stop, the candidate settles the next longest border. */
  lemma NextLongestBorder<T>(s: seq<T>, c: T, j: int)
    requires IsBorder(s, j) && BoundsNextBorder(s, c, j)
    requires s[j] == c || j == 0
    ensures IsLongestBorder(s + [c], if s[j] == c then j + 1 else 0)
  {
    var t := s + [c];
    BorderExtends(s, c, j);
    assert t[..0] == t[|t|..];
    forall m | IsBorder(t, m) ensures m <= if s[j] == c then j + 1 else 0 {
      if m > 0 { BorderExtends(s, c, m - 1); }
    }
  }

  /** `fail[k-1]` is the longest border of the first `k` elements. */
  ghost predicate IsFailureTable<T>(s: seq<T>, fail: seq<int>)
  {
    |fail| <= |s| && forall k :: 1 <= k <= |fail| ==> IsLongestBorder(s[..k], fail[k - 1])
  }

  /** `j` is a border of the filled part, and the next border is at most one longer. */
  ghost predicate IsCandidate<T>(s: seq<T>, i: nat, j: int)
    requires i < |s|
  {
    IsBorder(s[..i], j) && BoundsNextBorder(s[..i], s[i], j)
  }

  /** The last table entry is the first candidate for the next one. */
  lemma FirstCandidate<T>(s: seq<T>, fail: seq<int>)
    requires IsFailureTable(s, fail) && 0 < |fail| < |s|
    ensures IsCandidate(s, |fail|, fail[|fail| - 1])
  {
    LongestBorderBoundsNext(s[..|fail|], s[|fail|], fail[|fail| - 1]);
  }

  /** A mismatch passes on to a smaller candidate, read from the table. */
  lemma NextCandidate<T>(s: seq<T>, fail: seq<int>, j: int)
    requires IsFailureTable(s, fail) && |fail| < |s| && IsCandidate(s, |fail|, j)
    requires j > 0 && s[|fail|] != s[j]
    ensures fail[j - 1] < j && IsCandidate(s, |fail|, fail[j - 1])
  {
    assert s[..|fail|][..j] == s[..j];
    FallbackSkipsNothing(s[..|fail|], s[|fail|], j, fail[j - 1]);
  }

  /** The candidate left standing gives the next table entry. */
  lemma FailureTableGrows<T>(s: seq<T>, fail: seq<int>, j: int)
    requires IsFailureTable(s, fail) && |fail| < |s| && IsCandidate(s, |fail|, j)
    requires s[|fail|] == s[j] || j == 0
    ensures IsFailureTable(s, fail + [if s[|fail|] == s[j] then j + 1 else 0])
  {
    NextLongestBorder(s[..|fail|], s[|fail|], j);
    assert s[..|fail|] + [s[|fail|]] == s[..|fail| + 1];
  }

  // ---------- The two scans ----------

  /**
   The failure-function scan. `fallbacks` counts the iterations of the inner loop over the
   whole call, and `period` is the period the last line computes.
   */
  method IsRepeatedPattern(s: Bytes) returns (repeated: bool, ghost period: int, ghost fallbacks: int)
    ensures repeated <==> HasTwoRepeats(s)
    ensures |s| >= 2 ==> IsLeastPeriod(s, period)
    ensures |s| >= 1 ==> 0 <= fallbacks <= |s| - 1
  {
    period, fallbacks := 0, 0;
    var n := |s|;
    if n < 2 {
      return false, 0, 0;
    }
    var fail := new int[n](_ => 0);
    ghost var table := [0];
    assert IsLongestBorder(s[..1], 0);
    for i := 1 to n
      invariant fail.Length == n
      invariant table == fail[..i] && IsFailureTable(s, table)
      invariant 0 <= fallbacks <= i - 1 - table[i - 1]
    {
      var j := fail[i - 1];
      FirstCandidate(s, table);
      while j > 0 && s[i] != s[j]
        invariant table == fail[..i]
        invariant IsCandidate(s, i, j)
        invariant 0 <= fallbacks <= i - 1 - j
        decreases j
      {
        NextCandidate(s, table, j);
        j := fail[j - 1];
        fallbacks := fallbacks + 1;
      }
      FailureTableGrows(s, table, j);
      if s[i] == s[j] {
        j := j + 1;
      }
      fail[i] := j;
      table := table + [j];
    }
    assert s[..n] == s && fail[n - 1] == table[n - 1];
    LongestBorderIsLeastPeriod(s, fail[n - 1]);
    period := n - fail[n - 1];
    var p := n - fail[n - 1];
    repeated := p * 2 <= n;
    if repeated { assert IsPeriod(s, p); }
  }

  function Distinct(s: Bytes): set<byte>
  {
    set b | b in s
  }

  /** The flags set are those of the elements of `found`. */
  ghost predicate Marks(flags: seq<bool>, found: set<byte>)
  {
    |flags| == 256 && forall v: byte :: flags[v] <==> v in found
  }

  lemma MarksGrow(flags: seq<bool>, found: set<byte>, v: byte)
    requires Marks(flags, found)
    ensures Marks(flags[v := true], found + {v})
    ensures flags[v] ==> found + {v} == found && flags[v := true] == flags
  {
  }

  lemma DistinctGrows(s: Bytes, i: nat)
    requires i < |s|
    ensures Distinct(s[..i + 1]) == Distinct(s[..i]) + {s[i]}
  {
    assert s[..i + 1] == s[..i] + [s[i]];
  }

  /** The number of distinct bytes, counted through a table of 256 flags. */
  method CountDistinctChars(s: Bytes) returns (distinct: int)
    ensures distinct == |Distinct(s)|
  {
    var seen := new bool[256](_ => false);
    distinct := 0;
    for i := 0 to |s|
      invariant Marks(seen[..], Distinct(s[..i]))
      invariant distinct == |Distinct(s[..i])|
    {
      DistinctGrows(s, i);
      MarksGrow(seen[..], Distinct(s[..i]), s[i]);
      if !seen[s[i]] {
        assert s[i] !in Distinct(s[..i]);
        seen[s[i]] := true;
        distinct := distinct + 1;
      }
    }
    assert s[..|s|] == s;
  }

  // ---------- The checks of Load ----------

  const MIN_SESSION_SECRET_LENGTH := 32
  const MIN_PRODUCTION_DISTINCT_CHARS := 8

  datatype SecretError = TooShort | KnownWeak | TooFewDistinct(distinct: int) | RepeatedPattern

  datatype SecretVerdict = Accepted | Rejected(error: SecretError)

  /** The part of `Load` that looks at the session secret, in its order. */
  method CheckSessionSecret(secret: Bytes, production: bool, knownWeak: seq<Bytes>) returns (v: SecretVerdict)
    ensures v.Accepted? <==>
            && |secret| >= 32
            && secret !in knownWeak
            && (production ==>
                  && |Distinct(secret)| >= 8
                  && forall p :: IsPeriod(secret, p) ==> 2 * p > |secret|)
    ensures v == Rejected(TooShort) <==> |secret| < 32
    ensures v == Rejected(KnownWeak) <==> |secret| >= 32 && secret in knownWeak
    ensures forall d :: v == Rejected(TooFewDistinct(d)) ==> d == |Distinct(secret)| < 8
    ensures v == Rejected(RepeatedPattern) ==>
              |Distinct(secret)| >= 8 && HasTwoRepeats(secret)
  {
    if |secret| < MIN_SESSION_SECRET_LENGTH {
      return Rejected(TooShort);
    }
    if secret in knownWeak {
      return Rejected(KnownWeak);
    }
    if production {
      var distinct := CountDistinctChars(secret);
      if distinct < MIN_PRODUCTION_DISTINCT_CHARS {
        return Rejected(TooFewDistinct(distinct));
      }
      var repeated, _, _ := IsRepeatedPattern(secret);
      if repeated {
        return Rejected(RepeatedPattern);
      }
    }
    return Accepted;
  }
}
