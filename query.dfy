/** Query filtering: the parsed tokens of the user's input become a sorted list
    of known symptom primes without repeats, plus one warning per rejected token. */
module QueryFilter {
  import opened Wrappers
  import opened Ordering

  /** Why a token was rejected. */
  datatype InvalidInput = NotAnInteger | NotASymptomPrime(value: int)

  function IntLe(a: int, b: int): bool {
    a <= b
  }

  lemma IntLeIsTotalOrder()
    ensures TotalOrder(IntLe)
  {
  }

  /** Python's `list.sort()` on integers: ascending, the same elements. */
  function SortAscending(s: seq<int>): (r: seq<int>)
    ensures multiset(r) == multiset(s)
    ensures forall i, j :: 0 <= i < j < |r| ==> r[i] <= r[j]
  {
    IntLeIsTotalOrder();
    Sort(s, IntLe)
  }

  /** The token is an integer that is some symptom's prime. */
  predicate IsKnown(t: Option<int>, pts: map<int, string>) {
    t.Some? && t.value in pts
  }

  /** The warning a single token draws, if any. */
  function WarningOf(t: Option<int>, pts: map<int, string>): Option<InvalidInput> {
    match t
    case None => Some(NotAnInteger)
    case Some(p) => if p in pts then None else Some(NotASymptomPrime(p))
  }

  /** The positions of the tokens that are known primes. */
  ghost function KnownPositions(tokens: seq<Option<int>>, pts: map<int, string>): set<int> {
    set k | 0 <= k < |tokens| && IsKnown(tokens[k], pts)
  }

  /** The positions of the tokens that draw the warning w. */
  ghost function WarningPositions(tokens: seq<Option<int>>, pts: map<int, string>, w: InvalidInput): set<int> {
    set k | 0 <= k < |tokens| && WarningOf(tokens[k], pts) == Some(w)
  }

  /** Dropping the last token drops its position from the known positions. */
  lemma KnownPositionsStep(tokens: seq<Option<int>>, pts: map<int, string>)
    requires tokens != []
    ensures |KnownPositions(tokens, pts)| ==
      |KnownPositions(tokens[..|tokens| - 1], pts)| + (if IsKnown(tokens[|tokens| - 1], pts) then 1 else 0)
  {
    var n := |tokens| - 1;
    var a, b := KnownPositions(tokens[..n], pts), KnownPositions(tokens, pts);
    var last: set<int> := if IsKnown(tokens[n], pts) then {n} else {};
    forall k ensures k in b <==> k in a + last {
      if 0 <= k < n {
        assert tokens[..n][k] == tokens[k];
      }
    }
    assert b == a + last;
    assert n !in a;
  }

  /** Dropping the last token drops its position from the positions warned with w. */
  lemma WarningPositionsStep(tokens: seq<Option<int>>, pts: map<int, string>, w: InvalidInput)
    requires tokens != []
    ensures |WarningPositions(tokens, pts, w)| ==
      |WarningPositions(tokens[..|tokens| - 1], pts, w)| + (if WarningOf(tokens[|tokens| - 1], pts) == Some(w) then 1 else 0)
  {
    var n := |tokens| - 1;
    var a, b := WarningPositions(tokens[..n], pts, w), WarningPositions(tokens, pts, w);
    var last: set<int> := if WarningOf(tokens[n], pts) == Some(w) then {n} else {};
    forall k ensures k in b <==> k in a + last {
      if 0 <= k < n {
        assert tokens[..n][k] == tokens[k];
      }
    }
    assert b == a + last;
    assert n !in a;
  }

  /** WarningPositionsStep for every warning at once. */
  lemma WarningPositionsSteps(tokens: seq<Option<int>>, pts: map<int, string>)
    requires tokens != []
    ensures forall w :: (|WarningPositions(tokens, pts, w)| ==
      |WarningPositions(tokens[..|tokens| - 1], pts, w)| + (if WarningOf(tokens[|tokens| - 1], pts) == Some(w) then 1 else 0))
  {
    forall w ensures |WarningPositions(tokens, pts, w)| ==
      |WarningPositions(tokens[..|tokens| - 1], pts, w)| + (if WarningOf(tokens[|tokens| - 1], pts) == Some(w) then 1 else 0)
    {
      WarningPositionsStep(tokens, pts, w);
    }
  }

  /** The tokens that are integers with a symptom, repeats included, in input order:
      one entry per known-prime token. */
  function Known(tokens: seq<Option<int>>, pts: map<int, string>): (r: seq<int>)
    ensures forall p :: p in r <==> Some(p) in tokens && p in pts
    ensures |r| == |KnownPositions(tokens, pts)|
    decreases |tokens|
  {
    if tokens == [] then []
    else
      var n := |tokens| - 1;
      assert tokens == tokens[..n] + [tokens[n]];
      KnownPositionsStep(tokens, pts);
      var rest := Known(tokens[..n], pts);
      match tokens[n]
      case Some(p) => if p in pts then rest + [p] else rest
      case None => rest
  }

  /** The accepted primes before sorting: each known prime once, at its first occurrence. */
  function Accepted(tokens: seq<Option<int>>, pts: map<int, string>): (r: seq<int>)
    ensures NoDuplicates(r)
    ensures forall p :: p in r <==> Some(p) in tokens && p in pts
    decreases |tokens|
  {
    if tokens == [] then []
    else
      var n := |tokens| - 1;
      assert tokens == tokens[..n] + [tokens[n]];
      var rest := Accepted(tokens[..n], pts);
      match tokens[n]
      case Some(p) => if p in pts && p !in rest then rest + [p] else rest
      case None => rest
  }

  /** The warnings, in input order: one per token that is not an integer or not a
      symptom prime. */
  function Rejections(tokens: seq<Option<int>>, pts: map<int, string>): (r: seq<InvalidInput>)
    ensures |r| + |Known(tokens, pts)| == |tokens|
    ensures forall w :: w in r ==>
      (w == NotAnInteger && None in tokens) ||
      (w.NotASymptomPrime? && Some(w.value) in tokens && w.value !in pts)
    ensures forall w :: multiset(r)[w] == |WarningPositions(tokens, pts, w)|
    decreases |tokens|
  {
    if tokens == [] then []
    else
      var n := |tokens| - 1;
      assert tokens == tokens[..n] + [tokens[n]];
      WarningPositionsSteps(tokens, pts);
      var rest := Rejections(tokens[..n], pts);
      match tokens[n]
      case Some(p) => if p in pts then rest else rest + [NotASymptomPrime(p)]
      case None => rest + [NotAnInteger]
  }

  /** The symptom names of the accepted primes, in the same order. */
  function SymptomNames(ps: seq<int>, pts: map<int, string>): (r: seq<string>)
    requires forall k :: 0 <= k < |ps| ==> ps[k] in pts
    ensures |r| == |ps|
    ensures forall k :: 0 <= k < |ps| ==> r[k] == pts[ps[k]]
    decreases |ps|
  {
    if ps == [] then []
    else SymptomNames(ps[..|ps| - 1], pts) + [pts[ps[|ps| - 1]]]
  }

  /** One more token: how it extends the accepted primes, their names and the warnings. */
  lemma FilterStep(tokens: seq<Option<int>>, pts: map<int, string>, k: nat)
    requires k < |tokens|
    ensures Accepted(tokens[..k + 1], pts) ==
      var rest := Accepted(tokens[..k], pts);
      match tokens[k]
      case Some(p) => if p in pts && p !in rest then rest + [p] else rest
      case None => rest
    ensures Rejections(tokens[..k + 1], pts) ==
      var rest := Rejections(tokens[..k], pts);
      match tokens[k]
      case Some(p) => if p in pts then rest else rest + [NotASymptomPrime(p)]
      case None => rest + [NotAnInteger]
    ensures forall ps, p :: (forall j :: 0 <= j < |ps| ==> ps[j] in pts) && p in pts ==>
      SymptomNames(ps + [p], pts) == SymptomNames(ps, pts) + [pts[p]]
  {
    assert tokens[..k + 1][..k] == tokens[..k];
    forall ps, p | (forall j :: 0 <= j < |ps| ==> ps[j] in pts) && p in pts
      ensures SymptomNames(ps + [p], pts) == SymptomNames(ps, pts) + [pts[p]]
    {
      assert (ps + [p])[..|ps|] == ps;
    }
  }

  /** The input-validation loop: parse failures and integers that are no symptom's
      prime become warnings; a known prime is kept once, its symptom recorded; at the
      end the primes are sorted. */
  method FilterInputs(tokens: seq<Option<int>>, primeToSymptom: map<int, string>)
    returns (primes: seq<int>, found: seq<string>, invalid: seq<InvalidInput>)
    ensures primes == SortAscending(Accepted(tokens, primeToSymptom))
    ensures found == SymptomNames(Accepted(tokens, primeToSymptom), primeToSymptom)
    ensures invalid == Rejections(tokens, primeToSymptom)
    ensures forall p :: p in primes <==> Some(p) in tokens && p in primeToSymptom
    ensures forall i, j :: 0 <= i < j < |primes| ==> primes[i] < primes[j]
  {
    var userPrimes: seq<int> := [];
    found, invalid := [], [];
    for k := 0 to |tokens|
      invariant userPrimes == Accepted(tokens[..k], primeToSymptom)
      invariant found == SymptomNames(userPrimes, primeToSymptom)
      invariant invalid == Rejections(tokens[..k], primeToSymptom)
    {
      FilterStep(tokens, primeToSymptom, k);
      match tokens[k]
      case None =>
        invalid := invalid + [NotAnInteger];
      case Some(n) =>
        if n in primeToSymptom {
          if n !in userPrimes {
            userPrimes := userPrimes + [n];
            found := found + [primeToSymptom[n]];
          }
        } else {
          invalid := invalid + [NotASymptomPrime(n)];
        }
    }
    assert tokens[..|tokens|] == tokens;
    primes := SortAscending(userPrimes);
    SortedAcceptedStrict(userPrimes);
  }

  /** Sorting a list without repeats keeps its elements and makes it strictly ascending. */
  lemma SortedAcceptedStrict(s: seq<int>)
    requires NoDuplicates(s)
    ensures forall p :: p in SortAscending(s) <==> p in s
    ensures forall i, j :: 0 <= i < j < |SortAscending(s)| ==> SortAscending(s)[i] < SortAscending(s)[j]
  {
    var r := SortAscending(s);
    forall p ensures p in r <==> p in s {
      assert p in r <==> p in multiset(r);
      assert p in s <==> p in multiset(s);
    }
    NoDuplicatesPermutation(s, r);
  }
}
