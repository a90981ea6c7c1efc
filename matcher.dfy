/** The matcher: for each disease, count the user's primes that divide its sqf,
    and keep the diseases with at least one. */
module Matcher {
  import opened Arith
  import opened Codec

  /** One entry of the match dictionary: a disease and its match count. */
  datatype Match = Match(disease: string, count: nat)

  /** The source's `%` raises on a zero divisor; that happens exactly when both the
      prime list and the disease map are non-empty and the list holds a 0. */
  predicate NoZeroDivisor(user: seq<int>, diseaseSqfs: seq<(string, int)>) {
    user == [] || diseaseSqfs == [] || 0 !in user
  }

  /** How many entries of `user` (a repeated entry counts each time) divide sqf. */
  function CountDividing(user: seq<int>, sqf: int): (n: nat)
    requires 0 !in user
    ensures n <= |user|
    ensures n > 0 <==> exists p :: p in user && sqf % p == 0
    decreases |user|
  {
    if user == [] then 0
    else
      var prefix := user[..|user| - 1];
      var p := user[|user| - 1];
      assert user == prefix + [p];
      assert (exists q :: q in user && sqf % q == 0) <==>
        (exists q :: q in prefix && sqf % q == 0) || sqf % p == 0 by {
        if exists q :: q in user && sqf % q == 0 {
          var q :| q in user && sqf % q == 0;
          assert q in prefix || q == p;
        }
        if exists q :: q in prefix && sqf % q == 0 {
          var q :| q in prefix && sqf % q == 0;
          assert q in user;
        }
        assert p in user;
      }
      CountDividing(prefix, sqf) + (if sqf % p == 0 then 1 else 0)
  }

  /** The match entries for the rows of `diseaseSqfs`, in their order. */
  function MatchesOf(user: seq<int>, diseaseSqfs: seq<(string, int)>): (r: seq<Match>)
    requires diseaseSqfs == [] || 0 !in user
    ensures |r| <= |diseaseSqfs|
    ensures forall m :: m in r ==>
      m.count > 0 &&
      exists i :: 0 <= i < |diseaseSqfs| && diseaseSqfs[i].0 == m.disease &&
        m.count == CountDividing(user, diseaseSqfs[i].1)
    ensures forall i :: 0 <= i < |diseaseSqfs| && CountDividing(user, diseaseSqfs[i].1) > 0 ==>
      Match(diseaseSqfs[i].0, CountDividing(user, diseaseSqfs[i].1)) in r
    decreases |diseaseSqfs|
  {
    if diseaseSqfs == [] then []
    else
      var n := |diseaseSqfs| - 1;
      var prefix := diseaseSqfs[..n];
      var rest := MatchesOf(user, prefix);
      var count := CountDividing(user, diseaseSqfs[n].1);
      assert forall i :: 0 <= i < n ==> prefix[i] == diseaseSqfs[i];
      if count > 0 then rest + [Match(diseaseSqfs[n].0, count)] else rest
  }

  /** calculate_disease_matches_numeric as a value: empty for an empty prime list. */
  function Matches(user: seq<int>, diseaseSqfs: seq<(string, int)>): (r: seq<Match>)
    requires NoZeroDivisor(user, diseaseSqfs)
    ensures user == [] ==> r == []
    ensures forall m :: m in r ==>
      m.count > 0 &&
      exists i :: 0 <= i < |diseaseSqfs| && diseaseSqfs[i].0 == m.disease &&
        m.count == CountDividing(user, diseaseSqfs[i].1)
    ensures user != [] ==> forall i :: 0 <= i < |diseaseSqfs| && CountDividing(user, diseaseSqfs[i].1) > 0 ==>
      Match(diseaseSqfs[i].0, CountDividing(user, diseaseSqfs[i].1)) in r
    ensures DistinctRows(diseaseSqfs) ==> DistinctMatches(r)
  {
    if user == [] then []
    else
      var r := MatchesOf(user, diseaseSqfs);
      assert DistinctRows(diseaseSqfs) ==> DistinctMatches(r) by {
        if DistinctRows(diseaseSqfs) {
          MatchesDistinct(user, diseaseSqfs);
        }
      }
      r
  }

  /** The inner loop of calculate_disease_matches_numeric: how many of the user's
      primes divide one disease's sqf. */
  method CountMatching(user: seq<int>, sqf: int) returns (count: nat)
    requires 0 !in user
    ensures count == CountDividing(user, sqf)
    ensures count > 0 <==> exists p :: p in user && sqf % p == 0
  {
    count := 0;
    for j := 0 to |user|
      invariant count == CountDividing(user[..j], sqf)
    {
      assert user[..j + 1][..j] == user[..j];
      if sqf % user[j] == 0 {
        count := count + 1;
      }
    }
    assert user[..|user|] == user;
  }

  /** calculate_disease_matches_numeric: per disease, count the primes that divide its
      sqf; diseases with a count of 0 are not recorded. */
  method CalculateMatches(user: seq<int>, diseaseSqfs: seq<(string, int)>) returns (matches: seq<Match>)
    requires NoZeroDivisor(user, diseaseSqfs)
    ensures matches == Matches(user, diseaseSqfs)
    ensures user == [] ==> matches == []
    ensures |matches| <= |diseaseSqfs|
    ensures DistinctRows(diseaseSqfs) ==> DistinctMatches(matches)
  {
    if user == [] {
      return [];
    }
    matches := [];
    for i := 0 to |diseaseSqfs|
      invariant matches == MatchesOf(user, diseaseSqfs[..i])
    {
      var (disease, sqf) := diseaseSqfs[i];
      var count := CountMatching(user, sqf);
      assert diseaseSqfs[..i + 1][..i] == diseaseSqfs[..i];
      if count > 0 {
        matches := matches + [Match(disease, count)];
      }
    }
    assert diseaseSqfs[..|diseaseSqfs|] == diseaseSqfs;
  }

  /** No two entries share a disease name. */
  predicate DistinctMatches(r: seq<Match>) {
    forall i, j :: 0 <= i < j < |r| ==> r[i].disease != r[j].disease
  }

  /** No two rows share a disease name. */
  predicate DistinctRows(d: seq<(string, int)>) {
    forall i, j :: 0 <= i < j < |d| ==> d[i].0 != d[j].0
  }

  /** Distinct disease names in, distinct disease names out: the result is a dictionary. */
  lemma {:induction false} MatchesDistinct(user: seq<int>, diseaseSqfs: seq<(string, int)>)
    requires diseaseSqfs == [] || 0 !in user
    requires DistinctRows(diseaseSqfs)
    ensures DistinctMatches(MatchesOf(user, diseaseSqfs))
    decreases |diseaseSqfs|
  {
    if diseaseSqfs != [] {
      var n := |diseaseSqfs| - 1;
      var prefix := diseaseSqfs[..n];
      var name := diseaseSqfs[n].0;
      assert DistinctRows(prefix);
      MatchesDistinct(user, prefix);
      var rest := MatchesOf(user, prefix);
      forall m | m in rest ensures m.disease != name {
        var i :| 0 <= i < |prefix| && prefix[i].0 == m.disease;
        assert diseaseSqfs[i].0 != name;
      }
      var count := CountDividing(user, diseaseSqfs[n].1);
      var r := MatchesOf(user, diseaseSqfs);
      if count > 0 {
        assert r == rest + [Match(name, count)];
        forall i, j | 0 <= i < j < |r| ensures r[i].disease != r[j].disease {
          if j == |rest| {
            assert r[i] in rest;
          }
        }
      }
    }
  }

  /** The number of user primes whose symptom is one of `symptoms`. */
  function SharedSymptoms(user: seq<int>, pts: map<int, string>, symptoms: seq<string>): nat
    decreases |user|
  {
    if user == [] then 0
    else
      var p := user[|user| - 1];
      SharedSymptoms(user[..|user| - 1], pts, symptoms) + (if p in pts && pts[p] in symptoms then 1 else 0)
  }

  /** The induction behind CountIsSharedSymptoms, over the two maps alone. */
  lemma {:induction false} CountIsShared(user: seq<int>, stp: map<string, int>, pts: map<int, string>, symptoms: seq<string>)
    requires PrimeCode(stp)
    requires forall p :: p in user ==> p in pts && pts[p] in stp && stp[pts[p]] == p
    ensures 0 !in user
    ensures CountDividing(user, Sqf(symptoms, stp)) == SharedSymptoms(user, pts, symptoms)
    decreases |user|
  {
    assert 0 !in user by {
      forall p | p in user ensures p != 0 {
        assert IsPrime(stp[pts[p]]);
      }
    }
    if user != [] {
      var n := |user| - 1;
      var p := user[n];
      assert user == user[..n] + [p];
      CountIsShared(user[..n], stp, pts, symptoms);
      SqfDivisibleIff(symptoms, stp, pts[p]);
    }
  }

  /** Matching by divisibility is counting shared symptoms: for user primes that all
      name symptoms of the codec, the count for a disease is the number of them whose
      symptom the disease has. */
  lemma CountIsSharedSymptoms(c: Codec, table: seq<Disease>, user: seq<int>, i: nat)
    requires Encodes(c, table) && i < |table|
    requires forall p :: p in user ==> p in c.primeToSymptom
    ensures 0 !in user
    ensures |c.diseaseToSqf| == |table|
    ensures CountDividing(user, c.diseaseToSqf[i].1) == SharedSymptoms(user, c.primeToSymptom, table[i].symptoms)
  {
    CodecSound(c, table);
    CountIsShared(user, c.symptomToPrime, c.primeToSymptom, table[i].symptoms);
  }

  /** A disease with no symptoms has sqf 1, which no prime divides: it never matches. */
  lemma {:induction false} EmptySymptomsNeverMatch(user: seq<int>, stp: map<string, int>)
    requires forall p :: p in user ==> p >= 2
    ensures Sqf([], stp) == 1
    ensures CountDividing(user, Sqf([], stp)) == 0
    decreases |user|
  {
    if user != [] {
      var n := |user| - 1;
      assert user == user[..n] + [user[n]];
      assert user[n] in user && forall q :: q in user[..n] ==> q in user;
      EmptySymptomsNeverMatch(user[..n], stp);
      SmallNotDivisible(1, user[n]);
    }
  }
}
