/** The codec: the symptom -> prime assignment, its inverse, each disease's
    square-free integer (sqf, the product of its symptoms' primes) and the
    one-to-many index from sqf back to disease names. */
module Codec {
  import opened Arith
  import opened PrimeSource
  import opened Ordering

  /** One row of the disease table. `symptoms` is the disease's symptom set, listed
      in the order the set is iterated. */
  datatype Disease = Disease(name: string, symptoms: seq<string>)

  /** The table is a dictionary keyed by disease name. */
  predicate DistinctNames(table: seq<Disease>) {
    forall i, j :: 0 <= i < j < |table| ==> table[i].name != table[j].name
  }

  /** s is a symptom of some disease of the table. */
  ghost predicate Mentioned(table: seq<Disease>, s: string) {
    exists i :: 0 <= i < |table| && s in table[i].symptoms
  }

  /** Every symptom occurrence of the table, row after row. */
  function Mentions(table: seq<Disease>): (r: seq<string>)
    ensures forall s :: s in r <==> Mentioned(table, s)
  {
    if table == [] then []
    else
      var rest := Mentions(table[1..]);
      assert forall s :: Mentioned(table[1..], s) ==> Mentioned(table, s) by {
        forall s | Mentioned(table[1..], s) ensures Mentioned(table, s) {
          var i :| 0 <= i < |table[1..]| && s in table[1..][i].symptoms;
          assert s in table[i + 1].symptoms;
        }
      }
      table[0].symptoms + rest
  }

  /** The distinct elements of s, each at its first occurrence. */
  function Dedup(s: seq<string>): (r: seq<string>)
    ensures NoDuplicates(r)
    ensures forall x :: x in r <==> x in s
  {
    if s == [] then []
    else
      var rest := Dedup(s[..|s| - 1]);
      var x := s[|s| - 1];
      assert s == s[..|s| - 1] + [x];
      if x in rest then rest else rest + [x]
  }

  /** all_symptoms: the distinct symptom names of the table, sorted. */
  function AllSymptoms(table: seq<Disease>): (r: seq<string>)
    ensures forall s :: s in r <==> Mentioned(table, s)
    ensures forall i, j :: 0 <= i < j < |r| ==> StrLt(r[i], r[j])
  {
    StrLeIsTotalOrder();
    var distinct := Dedup(Mentions(table));
    var sorted := Sort(distinct, StrLe);
    assert forall s :: s in sorted <==> s in distinct by {
      forall s ensures s in sorted <==> s in distinct {
        assert s in sorted <==> s in multiset(sorted);
        assert s in distinct <==> s in multiset(distinct);
      }
    }
    NoDuplicatesPermutation(distinct, sorted);
    sorted
  }

  /** symptom_to_prime: the i-th symptom gets the i-th prime (a later duplicate would win,
      as in a dictionary comprehension). */
  function SymptomToPrime(syms: seq<string>, primes: seq<int>): (m: map<string, int>)
    requires |primes| >= |syms|
    ensures m.Keys == set i | 0 <= i < |syms| :: syms[i]
    decreases |syms|
  {
    if syms == [] then map[]
    else
      var n := |syms| - 1;
      var m := SymptomToPrime(syms[..n], primes);
      assert (set i | 0 <= i < |syms| :: syms[i]) == (set i | 0 <= i < n :: syms[..n][i]) + {syms[n]};
      m[syms[n] := primes[n]]
  }

  /** prime_to_symptom: built from the items of symptom_to_prime, which come in the
      order of all_symptoms. */
  function PrimeToSymptom(syms: seq<string>, primes: seq<int>): (m: map<int, string>)
    requires |primes| >= |syms|
    ensures m.Keys == set i | 0 <= i < |syms| :: primes[i]
    decreases |syms|
  {
    if syms == [] then map[]
    else
      var n := |syms| - 1;
      var m := PrimeToSymptom(syms[..n], primes);
      assert (set i | 0 <= i < |syms| :: primes[i]) == (set i | 0 <= i < n :: primes[i]) + {primes[n]};
      m[primes[n] := syms[n]]
  }

  /** With distinct symptom names, symptom i is assigned prime i. */
  lemma {:induction false} SymptomToPrimeAt(syms: seq<string>, primes: seq<int>, i: nat)
    requires |primes| >= |syms| && NoDuplicates(syms) && i < |syms|
    ensures syms[i] in SymptomToPrime(syms, primes)
    ensures SymptomToPrime(syms, primes)[syms[i]] == primes[i]
    decreases |syms|
  {
    var n := |syms| - 1;
    var prefix := syms[..n];
    assert SymptomToPrime(syms, primes) == SymptomToPrime(prefix, primes)[syms[n] := primes[n]];
    if i < n {
      assert prefix[i] == syms[i] && syms[i] != syms[n];
      assert NoDuplicates(prefix) by {
        forall j, k | 0 <= j < k < |prefix| ensures prefix[j] != prefix[k] {
          assert prefix[j] == syms[j] && prefix[k] == syms[k];
        }
      }
      SymptomToPrimeAt(prefix, primes, i);
    }
  }

  /** With distinct primes, prime i is mapped back to symptom i. */
  lemma {:induction false} PrimeToSymptomAt(syms: seq<string>, primes: seq<int>, i: nat)
    requires |primes| >= |syms| && StrictlyIncreasing(primes) && i < |syms|
    ensures primes[i] in PrimeToSymptom(syms, primes)
    ensures PrimeToSymptom(syms, primes)[primes[i]] == syms[i]
    decreases |syms|
  {
    var n := |syms| - 1;
    var prefix := syms[..n];
    assert PrimeToSymptom(syms, primes) == PrimeToSymptom(prefix, primes)[primes[n] := syms[n]];
    if i < n {
      assert prefix[i] == syms[i] && primes[i] < primes[n];
      PrimeToSymptomAt(prefix, primes, i);
    }
  }

  /** No two symptoms share a prime. */
  ghost predicate Injective(stp: map<string, int>) {
    forall s, t :: s in stp && t in stp && s != t ==> stp[s] != stp[t]
  }

  /** The two mappings are mutual inverses and symptom_to_prime is injective, provided
      the symptom names are distinct and the primes strictly increasing. */
  lemma PrimeAssignmentRoundTrip(syms: seq<string>, primes: seq<int>)
    requires |primes| >= |syms| && NoDuplicates(syms) && StrictlyIncreasing(primes)
    ensures forall s :: s in SymptomToPrime(syms, primes) ==>
      SymptomToPrime(syms, primes)[s] in PrimeToSymptom(syms, primes) &&
      PrimeToSymptom(syms, primes)[SymptomToPrime(syms, primes)[s]] == s
    ensures forall p :: p in PrimeToSymptom(syms, primes) ==>
      PrimeToSymptom(syms, primes)[p] in SymptomToPrime(syms, primes) &&
      SymptomToPrime(syms, primes)[PrimeToSymptom(syms, primes)[p]] == p
    ensures Injective(SymptomToPrime(syms, primes))
  {
    var stp, pts := SymptomToPrime(syms, primes), PrimeToSymptom(syms, primes);
    forall s | s in stp ensures stp[s] in pts && pts[stp[s]] == s {
      var i :| 0 <= i < |syms| && syms[i] == s;
      SymptomToPrimeAt(syms, primes, i);
      PrimeToSymptomAt(syms, primes, i);
    }
    forall p | p in pts ensures pts[p] in stp && stp[pts[p]] == p {
      var i :| 0 <= i < |syms| && primes[i] == p;
      SymptomToPrimeAt(syms, primes, i);
      PrimeToSymptomAt(syms, primes, i);
    }
  }

  /** Every symptom is assigned a prime and no two symptoms share one. */
  ghost predicate PrimeCode(stp: map<string, int>) {
    (forall s :: s in stp ==> IsPrime(stp[s])) && Injective(stp)
  }

  /** What one symptom contributes to a product: its prime, or 1 (skipped) when it has
      none, the source's `if prime:` test. */
  function Factor(s: string, stp: map<string, int>): int {
    if s in stp && stp[s] != 0 then stp[s] else 1
  }

  /** The sqf of a symptom list: the product of the primes of its symptoms, starting
      from 1. */
  function Sqf(symptoms: seq<string>, stp: map<string, int>): int
    decreases |symptoms|
  {
    if symptoms == [] then 1
    else Sqf(symptoms[..|symptoms| - 1], stp) * Factor(symptoms[|symptoms| - 1], stp)
  }

  /** Taking out any one symptom divides the product by its factor. */
  lemma {:induction false} SqfWithout(symptoms: seq<string>, stp: map<string, int>, k: nat)
    requires k < |symptoms|
    ensures Sqf(symptoms, stp) == Sqf(symptoms[..k] + symptoms[k + 1..], stp) * Factor(symptoms[k], stp)
    decreases |symptoms|
  {
    var n := |symptoms| - 1;
    if k < n {
      var prefix := symptoms[..n];
      SqfWithout(prefix, stp, k);
      var shorter := symptoms[..k] + symptoms[k + 1..];
      assert shorter[..|shorter| - 1] == prefix[..k] + prefix[k + 1..];
      assert shorter[|shorter| - 1] == symptoms[n];
    } else {
      assert symptoms[..k] + symptoms[k + 1..] == symptoms[..n];
    }
  }

  /** The sqf does not depend on the order in which the symptom set is iterated. */
  lemma {:induction false} SqfOrderIndependent(a: seq<string>, b: seq<string>, stp: map<string, int>)
    requires multiset(a) == multiset(b)
    ensures Sqf(a, stp) == Sqf(b, stp)
    decreases |a|
  {
    if a != [] {
      var n := |a| - 1;
      var x := a[n];
      assert a == a[..n] + [x];
      assert x in multiset(b);
      var k :| 0 <= k < |b| && b[k] == x;
      var rest := b[..k] + b[k + 1..];
      assert b == b[..k] + [x] + b[k + 1..];
      assert multiset(rest) == multiset(b) - multiset{x};
      assert multiset(a[..n]) == multiset(a) - multiset{x};
      SqfOrderIndependent(a[..n], rest, stp);
      SqfWithout(b, stp, k);
    }
  }

  /** The property matching rests on: the prime of s divides the sqf exactly when s
      is one of the symptoms (unique factorisation over distinct primes). */
  lemma {:induction false} SqfDivisibleIff(symptoms: seq<string>, stp: map<string, int>, s: string)
    requires PrimeCode(stp) && s in stp
    ensures Sqf(symptoms, stp) % stp[s] == 0 <==> s in symptoms
    decreases |symptoms|
  {
    var p := stp[s];
    if symptoms == [] {
      SmallNotDivisible(1, p);
    } else {
      var n := |symptoms| - 1;
      var prefix, x := symptoms[..n], symptoms[n];
      assert symptoms == prefix + [x];
      var acc := Sqf(prefix, stp);
      SqfDivisibleIff(prefix, stp, s);
      if x in stp {
        var q := stp[x];
        assert Sqf(symptoms, stp) == acc * q;
        if x == s {
          MultipleMod(p, acc);
          assert acc * q == p * acc;
        } else {
          assert q != p;
          if (acc * q) % p == 0 {
            Euclid(p, acc, q);
            DistinctPrimesCoprime(p, q);
          }
          if acc % p == 0 {
            MulDivisible(acc, q, p);
          }
        }
      }
    }
  }

  /** Square-free: the prime of each listed symptom divides the sqf exactly once. */
  lemma {:induction false} SqfSquareFree(symptoms: seq<string>, stp: map<string, int>, s: string)
    requires PrimeCode(stp) && NoDuplicates(symptoms) && s in stp && s in symptoms
    ensures Sqf(symptoms, stp) % stp[s] == 0
    ensures (Sqf(symptoms, stp) / stp[s]) % stp[s] != 0
    decreases |symptoms|
  {
    var p := stp[s];
    var n := |symptoms| - 1;
    var prefix, x := symptoms[..n], symptoms[n];
    assert symptoms == prefix + [x];
    var acc, q := Sqf(prefix, stp), Factor(x, stp);
    assert Sqf(symptoms, stp) == acc * q;
    if x == s {
      assert s !in prefix;
      SqfDivisibleIff(prefix, stp, s);
      OnceByNewFactor(acc, p);
    } else {
      SqfSquareFree(prefix, stp, s);
      assert q % p != 0 by {
        if x in stp {
          DistinctPrimesCoprime(p, q);
        } else {
          SmallNotDivisible(1, p);
        }
      }
      OnceKeptByOtherFactor(acc, q, p);
    }
  }

  /** With primes for its symptoms, an sqf is at least 1. */
  lemma {:induction false} SqfPositive(symptoms: seq<string>, stp: map<string, int>)
    requires forall s :: s in stp ==> stp[s] > 0
    ensures Sqf(symptoms, stp) >= 1
    decreases |symptoms|
  {
    if symptoms != [] {
      SqfPositive(symptoms[..|symptoms| - 1], stp);
    }
  }

  /** disease_to_sqf as its items, in table order. */
  function DiseaseSqfs(table: seq<Disease>, stp: map<string, int>): (r: seq<(string, int)>)
    ensures |r| == |table|
    ensures forall i :: 0 <= i < |table| ==> r[i] == (table[i].name, Sqf(table[i].symptoms, stp))
  {
    if table == [] then []
    else
      var n := |table| - 1;
      DiseaseSqfs(table[..n], stp) + [(table[n].name, Sqf(table[n].symptoms, stp))]
  }

  /** sqf_to_disease: each row's name appended to the list under its sqf. */
  function SqfIndex(table: seq<Disease>, stp: map<string, int>): map<int, seq<string>>
  {
    if table == [] then map[]
    else
      var n := |table| - 1;
      var m := SqfIndex(table[..n], stp);
      var k := Sqf(table[n].symptoms, stp);
      m[k := (if k in m then m[k] else []) + [table[n].name]]
  }

  /** The names of the rows whose sqf is k, in table order. */
  function NamesWithSqf(table: seq<Disease>, stp: map<string, int>, k: int): seq<string>
  {
    if table == [] then []
    else
      var n := |table| - 1;
      NamesWithSqf(table[..n], stp, k) + (if Sqf(table[n].symptoms, stp) == k then [table[n].name] else [])
  }

  /** The index is one-to-many and loses nothing: its keys are exactly the sqfs that
      occur, and under each the names of all rows with that sqf, in table order. */
  lemma {:induction false} SqfIndexContents(table: seq<Disease>, stp: map<string, int>, k: int)
    ensures k in SqfIndex(table, stp) <==> exists i :: 0 <= i < |table| && Sqf(table[i].symptoms, stp) == k
    ensures k in SqfIndex(table, stp) ==> SqfIndex(table, stp)[k] == NamesWithSqf(table, stp, k)
    ensures k !in SqfIndex(table, stp) ==> NamesWithSqf(table, stp, k) == []
    decreases |table|
  {
    if table != [] {
      var n := |table| - 1;
      SqfIndexContents(table[..n], stp, k);
      if Sqf(table[n].symptoms, stp) != k {
        if k in SqfIndex(table, stp) {
          var i :| 0 <= i < n && Sqf(table[..n][i].symptoms, stp) == k;
          assert table[..n][i] == table[i];
        }
        if exists i :: 0 <= i < |table| && Sqf(table[i].symptoms, stp) == k {
          var i :| 0 <= i < |table| && Sqf(table[i].symptoms, stp) == k;
          assert table[..n][i] == table[i];
        }
      }
    }
  }

  /** Every disease is listed under its own sqf. */
  lemma {:induction false} NameListedUnderSqf(table: seq<Disease>, stp: map<string, int>, i: nat)
    requires i < |table|
    ensures Sqf(table[i].symptoms, stp) in SqfIndex(table, stp)
    ensures table[i].name in SqfIndex(table, stp)[Sqf(table[i].symptoms, stp)]
    decreases |table|
  {
    var n := |table| - 1;
    if i < n {
      NameListedUnderSqf(table[..n], stp, i);
      assert table[..n][i] == table[i];
    }
  }

  /** The module-level state the source builds once: all_symptoms, primes_list,
      symptom_to_prime, prime_to_symptom, disease_to_sqf (as items) and sqf_to_disease. */
  datatype Codec = Codec(
    symptoms: seq<string>,
    primes: seq<int>,
    symptomToPrime: map<string, int>,
    primeToSymptom: map<int, string>,
    diseaseToSqf: seq<(string, int)>,
    sqfToDiseases: map<int, seq<string>>)

  /** The codec is fully determined by the table and the primes, and these are the
      first |symptoms| primes. */
  ghost predicate Encodes(c: Codec, table: seq<Disease>) {
    && c.symptoms == AllSymptoms(table)
    && |c.primes| == |c.symptoms| && FirstPrimes(c.primes)
    && c.symptomToPrime == SymptomToPrime(c.symptoms, c.primes)
    && c.primeToSymptom == PrimeToSymptom(c.symptoms, c.primes)
    && c.diseaseToSqf == DiseaseSqfs(table, c.symptomToPrime)
    && c.sqfToDiseases == SqfIndex(table, c.symptomToPrime)
  }

  /** What an encoded table guarantees: each symptom of the table has a prime, the
      assignment is injective and prime, and its two directions are inverse. */
  lemma CodecSound(c: Codec, table: seq<Disease>)
    requires Encodes(c, table)
    ensures forall s :: s in c.symptomToPrime <==> Mentioned(table, s)
    ensures PrimeCode(c.symptomToPrime)
    ensures forall s :: s in c.symptomToPrime ==>
      c.symptomToPrime[s] in c.primeToSymptom && c.primeToSymptom[c.symptomToPrime[s]] == s
    ensures forall p :: p in c.primeToSymptom ==>
      c.primeToSymptom[p] in c.symptomToPrime && c.symptomToPrime[c.primeToSymptom[p]] == p
  {
    var syms, primes := c.symptoms, c.primes;
    assert NoDuplicates(syms) by {
      forall i, j | 0 <= i < j < |syms| ensures syms[i] != syms[j] {
        assert StrLt(syms[i], syms[j]);
      }
    }
    PrimeAssignmentRoundTrip(syms, primes);
    forall s | s in c.symptomToPrime ensures IsPrime(c.symptomToPrime[s]) {
      var i :| 0 <= i < |syms| && syms[i] == s;
      SymptomToPrimeAt(syms, primes, i);
    }
  }

  /** The correctness invariant of the encoding: for every disease D and every symptom s
      of the table, prime(s) divides sqf(D) exactly when s is a symptom of D. */
  lemma CodecCorrect(c: Codec, table: seq<Disease>, i: nat, s: string)
    requires Encodes(c, table) && i < |table| && Mentioned(table, s)
    ensures s in c.symptomToPrime && IsPrime(c.symptomToPrime[s])
    ensures |c.diseaseToSqf| == |table| && c.diseaseToSqf[i].0 == table[i].name
    ensures c.diseaseToSqf[i].1 % c.symptomToPrime[s] == 0 <==> s in table[i].symptoms
  {
    CodecSound(c, table);
    SqfDivisibleIff(table[i].symptoms, c.symptomToPrime, s);
  }

  /** Building the codec twice from one table gives the same codec. */
  lemma BuildDeterministic(c1: Codec, c2: Codec, table: seq<Disease>)
    requires Encodes(c1, table) && Encodes(c2, table)
    ensures c1 == c2
  {
    FirstPrimesUnique(c1.primes, c2.primes);
  }

  /** The inner loop of the construction: multiply the accumulator, from 1, by the
      prime of each symptom that has one. */
  method ComputeSqf(symptoms: seq<string>, stp: map<string, int>) returns (sqf: int)
    ensures sqf == Sqf(symptoms, stp)
    ensures PrimeCode(stp) ==> sqf >= 1
    ensures PrimeCode(stp) ==> forall s :: s in stp ==> (sqf % stp[s] == 0 <==> s in symptoms)
  {
    sqf := 1;
    for j := 0 to |symptoms|
      invariant sqf == Sqf(symptoms[..j], stp)
    {
      var s := symptoms[j];
      assert symptoms[..j + 1][..j] == symptoms[..j];
      if s in stp && stp[s] != 0 {
        sqf := sqf * stp[s];
      }
    }
    assert symptoms[..|symptoms|] == symptoms;
    if PrimeCode(stp) {
      SqfPositive(symptoms, stp);
      forall s | s in stp ensures sqf % stp[s] == 0 <==> s in symptoms {
        SqfDivisibleIff(symptoms, stp, s);
      }
    }
  }

  /** One more row extends disease_to_sqf by its item and files its name under its sqf. */
  lemma EncodeStep(table: seq<Disease>, stp: map<string, int>, i: nat)
    requires i < |table|
    ensures DiseaseSqfs(table[..i + 1], stp) == DiseaseSqfs(table[..i], stp) + [(table[i].name, Sqf(table[i].symptoms, stp))]
    ensures SqfIndex(table[..i + 1], stp) ==
      var m, k := SqfIndex(table[..i], stp), Sqf(table[i].symptoms, stp);
      m[k := (if k in m then m[k] else []) + [table[i].name]]
  {
    assert table[..i + 1][..i] == table[..i];
  }

  /** The outer loop of the construction: each disease's sqf is recorded in
      disease_to_sqf and appended to the list under that sqf in sqf_to_disease. */
  method EncodeDiseases(table: seq<Disease>, stp: map<string, int>)
    returns (diseaseToSqf: seq<(string, int)>, sqfToDiseases: map<int, seq<string>>)
    requires DistinctNames(table)
    ensures diseaseToSqf == DiseaseSqfs(table, stp)
    ensures sqfToDiseases == SqfIndex(table, stp)
  {
    diseaseToSqf, sqfToDiseases := [], map[];
    for i := 0 to |table|
      invariant diseaseToSqf == DiseaseSqfs(table[..i], stp)
      invariant sqfToDiseases == SqfIndex(table[..i], stp)
    {
      var d := table[i];
      var sqf := ComputeSqf(d.symptoms, stp);
      EncodeStep(table, stp, i);
      diseaseToSqf := diseaseToSqf + [(d.name, sqf)];
      var bucket := if sqf in sqfToDiseases then sqfToDiseases[sqf] else [];
      sqfToDiseases := sqfToDiseases[sqf := bucket + [d.name]];
    }
    assert table[..|table|] == table;
  }

  /** The mapping construction: sort the symptoms, generate as many primes, zip them,
      invert, then encode every disease. */
  method BuildCodec(table: seq<Disease>) returns (c: Codec)
    requires DistinctNames(table)
    ensures Encodes(c, table)
    ensures PrimeCode(c.symptomToPrime)
    ensures |c.diseaseToSqf| == |table|
    ensures forall i :: 0 <= i < |table| ==> c.diseaseToSqf[i].0 == table[i].name
    ensures forall i, s :: 0 <= i < |table| && s in c.symptomToPrime ==>
      (c.diseaseToSqf[i].1 % c.symptomToPrime[s] == 0 <==> s in table[i].symptoms)
  {
    var syms := AllSymptoms(table);
    var primes := GeneratePrimes(|syms|);
    var stp := SymptomToPrime(syms, primes);
    var pts := PrimeToSymptom(syms, primes);
    var diseaseToSqf, sqfToDiseases := EncodeDiseases(table, stp);
    c := Codec(syms, primes, stp, pts, diseaseToSqf, sqfToDiseases);
    CodecSound(c, table);
    forall i, s | 0 <= i < |table| && s in c.symptomToPrime
      ensures c.diseaseToSqf[i].1 % c.symptomToPrime[s] == 0 <==> s in table[i].symptoms
    {
      CodecCorrect(c, table, i, s);
    }
  }
}
