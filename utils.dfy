/** Pure helpers of utils.js: `shuffleArray` (the Durstenfeld form of the
    Fisher–Yates shuffle) and the string format of `generateUniqueGameId`,
    which the interaction handler in app.js uses, and `capitalize`, which
    command registration in commands.js uses.
    Randomness and the clock are inputs: the caller supplies the values
    `Math.random` and `new Date().getTime()` would have produced. */
module Utils {

  datatype Option<T> = None | Some(value: T)

  /** No element occurs twice. */
  predicate Distinct<T(==)>(s: seq<T>) {
    forall i, j :: 0 <= i < j < |s| ==> s[i] != s[j]
  }

  /** A sequence without repetitions has as many distinct elements as it has positions. */
  lemma {:induction false} DistinctCardinality<T>(s: seq<T>)
    requires Distinct(s)
    ensures |set x | x in s| == |s|
  {
    if s != [] {
      var rest := s[1..];
      assert Distinct(rest) by {
        forall i, j | 0 <= i < j < |rest| ensures rest[i] != rest[j] {
          assert rest[i] == s[i + 1] && rest[j] == s[j + 1];
        }
      }
      DistinctCardinality(rest);
      assert s[0] !in rest by {
        forall j | 0 <= j < |rest| ensures rest[j] != s[0] {
          assert rest[j] == s[j + 1];
        }
      }
      assert (set x | x in s) == {s[0]} + (set x | x in rest) by {
        forall x | x in s ensures x == s[0] || x in rest {
          var k :| 0 <= k < |s| && s[k] == x;
          if k > 0 { assert rest[k - 1] == x; }
        }
      }
    }
  }

  // ---------------------------------------------------------------------
  // capitalize (utils.js:60-62)
  // ---------------------------------------------------------------------

  predicate IsLower(c: char) { 'a' <= c <= 'z' }

  predicate IsUpper(c: char) { 'A' <= c <= 'Z' }

  /** `toUpperCase` on one character: lower-case ASCII letters move to
      the matching upper-case letter, every other character stays. */
  function UpperChar(c: char): (u: char)
    ensures IsLower(c) ==> IsUpper(u) && u as int - 'A' as int == c as int - 'a' as int
    ensures !IsLower(c) ==> u == c
    ensures !IsLower(u)
  {
    if IsLower(c) then (c as int - 'a' as int + 'A' as int) as char else c
  }

  /** `str.charAt(0).toUpperCase() + str.slice(1)`; on the empty string
      `charAt(0)` is the empty string, so the result is empty too. */
  function Capitalize(s: string): (r: string)
    ensures |r| == |s|
    ensures forall i :: 1 <= i < |s| ==> r[i] == s[i]
    ensures s != [] ==> !IsLower(r[0])
    ensures s != [] && !IsLower(s[0]) ==> r == s
    ensures s != [] && IsLower(s[0]) ==> IsUpper(r[0]) && r[0] as int - 'A' as int == s[0] as int - 'a' as int
  {
    if s == [] then [] else [UpperChar(s[0])] + s[1..]
  }

  /** Capitalizing twice changes nothing more than capitalizing once. */
  lemma CapitalizeIdempotent(s: string)
    ensures Capitalize(Capitalize(s)) == Capitalize(s)
  {
  }

  // ---------------------------------------------------------------------
  // generateUniqueGameId (utils.js:64-75): `${timestamp}-${randomNumber}`
  // ---------------------------------------------------------------------

  predicate IsDigit(c: char) { '0' <= c <= '9' }

  predicate AllDigits(s: string) { forall i :: 0 <= i < |s| ==> IsDigit(s[i]) }

  function DigitChar(d: nat): (c: char)
    requires d < 10
    ensures IsDigit(c)
  {
    ('0' as int + d) as char
  }

  function DigitValue(c: char): (d: nat)
    requires IsDigit(c)
    ensures d < 10 && DigitChar(d) == c
  {
    c as int - '0' as int
  }

  /** How JavaScript renders a non-negative integer in a template literal:
      its decimal digits, most significant first, without leading zeros. */
  function Decimal(n: nat): (s: string)
    ensures |s| >= 1 && AllDigits(s)
    ensures s[0] == '0' ==> n == 0
    decreases n
  {
    if n < 10 then [DigitChar(n)] else Decimal(n / 10) + [DigitChar(n % 10)]
  }

  /** The value of a string of decimal digits (the inverse of Decimal). */
  function ParseDecimal(s: string): (n: nat)
    requires AllDigits(s)
  {
    if s == [] then 0 else 10 * ParseDecimal(s[..|s| - 1]) + DigitValue(s[|s| - 1])
  }

  lemma {:induction false} DecimalRoundTrip(n: nat)
    ensures ParseDecimal(Decimal(n)) == n
  {
    var s := Decimal(n);
    if n >= 10 {
      assert s[..|s| - 1] == Decimal(n / 10);
      DecimalRoundTrip(n / 10);
    }
  }

  /** Numbers below 1000 have one to three digits. */
  lemma {:induction false} DecimalBelowThousand(n: nat)
    requires n < 1000
    ensures 1 <= |Decimal(n)| <= 3
  {
    if n >= 10 {
      DecimalBelowThousand(n / 10);
    }
  }

  /** The game id built from the clock reading `timestamp` (milliseconds)
      and the random suffix `suffix`, which `Math.floor(Math.random() * 1000)`
      keeps below 1000. */
  function UniqueGameId(timestamp: nat, suffix: nat): (id: string)
    requires suffix < 1000
    ensures var k := |Decimal(timestamp)|;
            && k < |id| && id[k] == '-'
            && id[..k] == Decimal(timestamp) && id[k + 1..] == Decimal(suffix)
  {
    Decimal(timestamp) + "-" + Decimal(suffix)
  }

  /** Index of the first '-' in s, or |s| when there is none. */
  function DashIndex(s: string): (k: nat)
    ensures k <= |s|
    ensures k < |s| ==> s[k] == '-'
    ensures forall i :: 0 <= i < k ==> s[i] != '-'
  {
    if s == [] then 0 else if s[0] == '-' then 0 else 1 + DashIndex(s[1..])
  }

  /** Reads a game id back into its timestamp and suffix. */
  function ParseGameId(id: string): Option<(nat, nat)> {
    var k := DashIndex(id);
    if k == |id| then None
    else
      var stamp, rest := id[..k], id[k + 1..];
      if stamp != [] && rest != [] && AllDigits(stamp) && AllDigits(rest) && ParseDecimal(rest) < 1000
      then Some((ParseDecimal(stamp), ParseDecimal(rest)))
      else None
  }

  /** The id is the timestamp's digits, exactly one '-', and one to three
      digits of the suffix. */
  lemma GameIdShape(timestamp: nat, suffix: nat)
    requires suffix < 1000
    ensures var id := UniqueGameId(timestamp, suffix);
            var k := |Decimal(timestamp)|;
            && 1 <= k < |id| && id[k] == '-'
            && 1 <= |id| - k - 1 <= 3
            && forall i :: 0 <= i < |id| && i != k ==> IsDigit(id[i])
  {
    DecimalBelowThousand(suffix);
  }

  /** Parsing a generated id gives back the timestamp and the suffix. */
  lemma GameIdRoundTrip(timestamp: nat, suffix: nat)
    requires suffix < 1000
    ensures ParseGameId(UniqueGameId(timestamp, suffix)) == Some((timestamp, suffix))
  {
    var id := UniqueGameId(timestamp, suffix);
    var stamp, rest := Decimal(timestamp), Decimal(suffix);
    var k := DashIndex(id);
    assert id[|stamp|] == '-';
    assert k == |stamp| by {
      assert forall i :: 0 <= i < |stamp| ==> id[i] == stamp[i];
    }
    assert id[..k] == stamp;
    assert id[k + 1..] == rest;
    DecimalRoundTrip(timestamp);
    DecimalRoundTrip(suffix);
  }

  /** Distinct (timestamp, suffix) pairs give distinct ids. */
  lemma GameIdInjective(t1: nat, s1: nat, t2: nat, s2: nat)
    requires s1 < 1000 && s2 < 1000
    requires UniqueGameId(t1, s1) == UniqueGameId(t2, s2)
    ensures t1 == t2 && s1 == s2
  {
    GameIdRoundTrip(t1, s1);
    GameIdRoundTrip(t2, s2);
  }

  // ---------------------------------------------------------------------
  // shuffleArray (utils.js:122-130)
  // ---------------------------------------------------------------------

  /** The random indices the loop draws: at step i the index
      `Math.floor(Math.random() * (i + 1))` lies in 0..i. Entry i is the
      index drawn at step i (entry 0 is never used). */
  predicate ValidPicks(picks: seq<int>, n: nat) {
    |picks| == n && forall i :: 0 <= i < n ==> 0 <= picks[i] <= i
  }

  /** The destructuring swap `[a[i], a[j]] = [a[j], a[i]]`. */
  function Swap<T>(s: seq<T>, i: nat, j: nat): (r: seq<T>)
    requires i < |s| && j < |s|
    ensures |r| == |s| && r[i] == s[j] && r[j] == s[i]
    ensures forall k :: 0 <= k < |s| && k != i && k != j ==> r[k] == s[k]
  {
    s[i := s[j]][j := s[i]]
  }

  lemma SwapPermutes<T>(s: seq<T>, i: nat, j: nat)
    requires i < |s| && j < |s|
    ensures multiset(Swap(s, i, j)) == multiset(s)
  {
  }

  /** The sequence after the loop steps i, i - 1, ..., 1 have run on s. */
  function ShuffleFrom<T>(s: seq<T>, picks: seq<int>, i: int): (r: seq<T>)
    requires ValidPicks(picks, |s|) && -1 <= i < |s|
    ensures |r| == |s|
    ensures forall k :: i < k < |s| ==> r[k] == s[k]
    decreases i + 1
  {
    if i <= 0 then s else ShuffleFrom(Swap(s, i, picks[i]), picks, i - 1)
  }

  /** What shuffleArray returns for input s and random draws picks. */
  function Shuffled<T>(s: seq<T>, picks: seq<int>): (r: seq<T>)
    requires ValidPicks(picks, |s|)
    ensures |r| == |s| && multiset(r) == multiset(s)
  {
    ShuffleFromPermutes(s, picks, |s| - 1);
    ShuffleFrom(s, picks, |s| - 1)
  }

  /** Every step is a swap, so the result is a permutation of the input. */
  lemma {:induction false} ShuffleFromPermutes<T>(s: seq<T>, picks: seq<int>, i: int)
    requires ValidPicks(picks, |s|) && -1 <= i < |s|
    ensures |ShuffleFrom(s, picks, i)| == |s|
    ensures multiset(ShuffleFrom(s, picks, i)) == multiset(s)
    decreases i + 1
  {
    if i > 0 {
      SwapPermutes(s, i, picks[i]);
      ShuffleFromPermutes(Swap(s, i, picks[i]), picks, i - 1);
    }
  }

  /** A roster without repetitions stays without repetitions. */
  lemma {:induction false} ShuffleFromDistinct<T>(s: seq<T>, picks: seq<int>, i: int)
    requires ValidPicks(picks, |s|) && -1 <= i < |s|
    requires Distinct(s)
    ensures Distinct(ShuffleFrom(s, picks, i))
    decreases i + 1
  {
    if i > 0 {
      var t := Swap(s, i, picks[i]);
      assert Distinct(t) by {
        forall a, b | 0 <= a < b < |t| ensures t[a] != t[b] {
          var a' := if a == i then picks[i] else if a == picks[i] then i else a;
          var b' := if b == i then picks[i] else if b == picks[i] then i else b;
          assert t[a] == s[a'] && t[b] == s[b'];
        }
      }
      ShuffleFromDistinct(t, picks, i - 1);
    }
  }

  /** Shuffling a sequence without repetitions introduces none. */
  lemma ShuffledDistinct<T>(s: seq<T>, picks: seq<int>)
    requires ValidPicks(picks, |s|) && Distinct(s)
    ensures Distinct(Shuffled(s, picks))
  {
    ShuffleFromDistinct(s, picks, |s| - 1);
  }

  /** shuffleArray: copies `a` into a new array and swaps in place from
      the last position down to position 1; `a` itself is not modified. */
  method ShuffleArray<T>(a: array<T>, picks: seq<int>) returns (r: array<T>)
    requires ValidPicks(picks, a.Length)
    ensures fresh(r)
    ensures r.Length == a.Length
    ensures r[..] == Shuffled(a[..], picks)
    ensures multiset(r[..]) == multiset(a[..])
  {
    r := new T[a.Length](k requires 0 <= k < a.Length reads a => a[k]);
    assert r[..] == a[..];
    var i := r.Length - 1;
    while i > 0
      invariant -1 <= i < r.Length
      invariant ShuffleFrom(r[..], picks, i) == Shuffled(a[..], picks)
      invariant forall k :: i < k < r.Length ==> r[k] == Shuffled(a[..], picks)[k]
      invariant multiset(r[..]) == multiset(a[..])
    {
      var j := picks[i];
      ghost var before := r[..];
      var t := r[i];
      r[i] := r[j];
      r[j] := t;
      assert r[..] == Swap(before, i, j);
      SwapPermutes(before, i, j);
      i := i - 1;
    }
  }
}
