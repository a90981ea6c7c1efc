/** A worked example of the pipeline on a three-symptom table: Cough, Fever and
    Sore throat get 2, 3 and 5; Common Cold (Cough, Sore throat) has sqf 10 and
    Influenza (all three) 30; the query [2, 3] matches them once and twice, and
    Influenza is ranked first. */
module Examples {
  import opened Arith
  import opened PrimeSource
  import opened Ordering
  import opened Codec
  import opened Matcher
  import opened Ranker

  function ExampleSymptoms(): seq<string> {
    ["Cough", "Fever", "Sore throat"]
  }

  function ExampleTable(): seq<Disease> {
    [Disease("Common Cold", ["Cough", "Sore throat"]),
     Disease("Influenza", ["Cough", "Fever", "Sore throat"])]
  }

  /** The codec the construction builds for the example table. */
  function ExampleCodec(): Codec {
    var syms, primes := ExampleSymptoms(), [2, 3, 5];
    var stp := SymptomToPrime(syms, primes);
    Codec(syms, primes, stp, PrimeToSymptom(syms, primes),
      DiseaseSqfs(ExampleTable(), stp), SqfIndex(ExampleTable(), stp))
  }

  /** The example table mentions exactly Cough, Fever and Sore throat. */
  lemma ExampleSymptomsMentioned(table: seq<Disease>)
    requires table == ExampleTable()
    ensures forall s :: s in AllSymptoms(table) <==> s in ExampleSymptoms()
  {
    var e := ExampleSymptoms();
    var r := AllSymptoms(table);
    assert table[1].symptoms == e;
    forall s ensures s in r <==> s in e {
      if s in e {
        assert Mentioned(table, s);
      }
    }
  }

  /** Cough, Fever, Sore throat is strictly ascending in Python's string order. */
  lemma ExampleSymptomsAscending()
    ensures forall i, j :: 0 <= i < j < |ExampleSymptoms()| ==> StrLt(ExampleSymptoms()[i], ExampleSymptoms()[j])
  {
    var e := ExampleSymptoms();
    assert StrLt(e[0], e[1]) && StrLt(e[0], e[2]) && StrLt(e[1], e[2]);
  }

  /** Sorting the table's distinct symptoms gives Cough, Fever, Sore throat. */
  lemma ExampleSymptomsSorted(table: seq<Disease>)
    requires table == ExampleTable()
    ensures AllSymptoms(table) == ExampleSymptoms()
  {
    ExampleSymptomsMentioned(table);
    ExampleSymptomsAscending();
    StrictlySortedUnique(AllSymptoms(table), ExampleSymptoms());
  }

  /** 2, 3 and 5 are the first three primes. */
  lemma ExamplePrimes()
    ensures FirstPrimes([2, 3, 5])
  {
    assert !IsPrime(4) by { assert 4 % 2 == 0; }
  }

  /** The example codec is the one the construction builds for the example table. */
  lemma ExampleEncodes(table: seq<Disease>)
    requires table == ExampleTable()
    ensures Encodes(ExampleCodec(), table)
  {
    ExampleSymptomsSorted(table);
    ExamplePrimes();
  }

  lemma ExampleCodes()
    ensures var stp := ExampleCodec().symptomToPrime;
      && "Cough" in stp && stp["Cough"] == 2
      && "Fever" in stp && stp["Fever"] == 3
      && "Sore throat" in stp && stp["Sore throat"] == 5
  {
    var syms := ExampleSymptoms();
    assert NoDuplicates(syms);
    SymptomToPrimeAt(syms, [2, 3, 5], 0);
    SymptomToPrimeAt(syms, [2, 3, 5], 1);
    SymptomToPrimeAt(syms, [2, 3, 5], 2);
  }

  lemma ExampleSqfs()
    ensures ExampleCodec().diseaseToSqf == [("Common Cold", 10), ("Influenza", 30)]
  {
    var stp := ExampleCodec().symptomToPrime;
    ExampleCodes();
    var cold := ["Cough", "Sore throat"];
    var flu := ["Cough", "Fever", "Sore throat"];
    assert Sqf(cold, stp) == 10 by {
      assert cold[..1] == ["Cough"];
      assert ["Cough"][..0] == [];
    }
    assert Sqf(flu, stp) == 30 by {
      assert flu[..2] == ["Cough", "Fever"];
      assert flu[..2][..1] == ["Cough"];
      assert ["Cough"][..0] == [];
    }
  }

  lemma ExampleMatches()
    ensures Matches([2, 3], [("Common Cold", 10), ("Influenza", 30)])
      == [Match("Common Cold", 1), Match("Influenza", 2)]
  {
    var user := [2, 3];
    var sqfs: seq<(string, int)> := [("Common Cold", 10), ("Influenza", 30)];
    assert user[..1] == [2] && [2][..0] == [];
    assert CountDividing(user, 10) == 1;
    assert CountDividing(user, 30) == 2;
    var first := sqfs[..1];
    assert first == [("Common Cold", 10)];
    assert MatchesOf(user, first[..0]) == [] by { assert |first[..0]| == 0; }
    assert MatchesOf(user, first) == [Match("Common Cold", 1)];
  }

  lemma ExampleRank()
    ensures Rank([Match("Common Cold", 1), Match("Influenza", 2)])
      == [Match("Influenza", 2), Match("Common Cold", 1)]
  {
    var ms := [Match("Common Cold", 1), Match("Influenza", 2)];
    var ranked := [Match("Influenza", 2), Match("Common Cold", 1)];
    assert multiset(ranked) == multiset(ms);
    RankUnique(ms, ranked);
  }
}
