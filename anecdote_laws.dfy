/** What the table operations guarantee, and what they do not, stated over
    the pure definitions of module Anecdotes. */
module AnecdoteLaws {
  import opened Wrappers
  import opened Numerals
  import opened Anecdotes

  // ---- addNew ----------------------------------------------------------

  /** Lookups after an append: an id already present finds what it found
      before (the new record is behind it); otherwise only the drawn id finds
      anything, and it finds the new record. */
  lemma AppendedLookup(s: seq<Anecdote>, candidate: Anecdote, n: nat, id: string)
    requires n <= 10000
    ensures FindById(Appended(s, candidate, n), id) ==
              if id in Ids(s) then FindById(s, id)
              else if id == Decimal(n) then Some(Stamp(candidate, n))
              else None
  {
  }

  /** With a fresh draw, appending keeps the ids distinct. */
  lemma AppendedKeepsUnique(s: seq<Anecdote>, candidate: Anecdote, n: nat)
    requires n <= 10000
    requires UniqueIds(s) && Decimal(n) !in Ids(s)
    ensures UniqueIds(Appended(s, candidate, n))
  {
  }

  /** `addNew` consults no existing id: when the draw collides, the table
      loses distinct ids and a lookup of that id stops at the older record,
      never reaching the new one at the end. */
  lemma AppendedCollision(s: seq<Anecdote>, candidate: Anecdote, n: nat)
    requires n <= 10000
    requires Decimal(n) in Ids(s)
    ensures !UniqueIds(Appended(s, candidate, n))
    ensures FindById(Appended(s, candidate, n), Decimal(n)) == FindById(s, Decimal(n))
    ensures FindIndex(Appended(s, candidate, n), Decimal(n)) == FindIndex(s, Decimal(n))
  {
  }

  /** The seed table has distinct ids. */
  lemma SeedUnique()
    ensures UniqueIds(Seed())
  {
  }

  /** Drawing 1 or 2 collides with a seed record. */
  lemma SeedCollision(candidate: Anecdote, n: nat)
    requires n == 1 || n == 2
    ensures !UniqueIds(Appended(Seed(), candidate, n))
  {
  }

  /** The table after a run of `addNew` calls, one per candidate, with the
      draws in `draws`. */
  function AppendedAll(s: seq<Anecdote>, candidates: seq<Anecdote>, draws: seq<nat>): seq<Anecdote>
    requires |candidates| == |draws|
    requires forall i :: 0 <= i < |draws| ==> draws[i] <= 10000
    decreases |draws|
  {
    if draws == [] then s
    else AppendedAll(Appended(s, candidates[0], draws[0]), candidates[1..], draws[1..])
  }

  /** A run of appends grows the table by one record per call, keeps the
      records that were there, and puts the new ones in call order. */
  lemma {:induction false} AppendedAllOrder(s: seq<Anecdote>, candidates: seq<Anecdote>, draws: seq<nat>)
    requires |candidates| == |draws|
    requires forall i :: 0 <= i < |draws| ==> draws[i] <= 10000
    ensures |AppendedAll(s, candidates, draws)| == |s| + |draws|
    ensures AppendedAll(s, candidates, draws)[..|s|] == s
    ensures forall i :: 0 <= i < |draws| ==>
              AppendedAll(s, candidates, draws)[|s| + i] == Stamp(candidates[i], draws[i])
    decreases |draws|
  {
    if draws != [] {
      var s' := Appended(s, candidates[0], draws[0]);
      AppendedAllOrder(s', candidates[1..], draws[1..]);
      var t := AppendedAll(s, candidates, draws);
      assert t[..|s|] == s' [..|s|] by {
        assert t[..|s|] == t[..|s'|][..|s|];
      }
      forall i | 0 <= i < |draws| ensures t[|s| + i] == Stamp(candidates[i], draws[i]) {
        if i == 0 {
          assert t[|s|] == t[..|s'|][|s|];
        } else {
          assert t[|s'| + (i - 1)] == Stamp(candidates[1..][i - 1], draws[1..][i - 1]);
        }
      }
    }
  }

  /** Ids stay distinct through a run of appends exactly when the draws are
      distinct from each other and from the ids already present; here the
      "if" direction. */
  lemma {:induction false} AppendedAllUnique(s: seq<Anecdote>, candidates: seq<Anecdote>, draws: seq<nat>)
    requires |candidates| == |draws|
    requires forall i :: 0 <= i < |draws| ==> draws[i] <= 10000
    requires UniqueIds(s)
    requires forall i :: 0 <= i < |draws| ==> Decimal(draws[i]) !in Ids(s)
    requires forall i, j :: 0 <= i < j < |draws| ==> draws[i] != draws[j]
    ensures UniqueIds(AppendedAll(s, candidates, draws))
    decreases |draws|
  {
    if draws != [] {
      var s' := Appended(s, candidates[0], draws[0]);
      AppendedKeepsUnique(s, candidates[0], draws[0]);
      forall i | 0 <= i < |draws[1..]| ensures Decimal(draws[1..][i]) !in Ids(s') {
        ValueOfDecimal(draws[0]);
        ValueOfDecimal(draws[i + 1]);
        assert Ids(s') == Ids(s) + [Decimal(draws[0])];
      }
      AppendedAllUnique(s', candidates[1..], draws[1..]);
    }
  }

  /** ... and the "only if" direction for the draws themselves: two equal
      draws in one run always leave two records with the same id. */
  lemma AppendedAllRepeatedDraw(s: seq<Anecdote>, candidates: seq<Anecdote>, draws: seq<nat>, i: nat, j: nat)
    requires |candidates| == |draws|
    requires forall k :: 0 <= k < |draws| ==> draws[k] <= 10000
    requires i < j < |draws| && draws[i] == draws[j]
    ensures !UniqueIds(AppendedAll(s, candidates, draws))
  {
    AppendedAllOrder(s, candidates, draws);
    var t := AppendedAll(s, candidates, draws);
    assert t[|s| + i].id == Decimal(draws[i]) == t[|s| + j].id;
  }

  /** ... and for the ids already present: a draw that prints as an existing
      id leaves two records with that id. */
  lemma AppendedAllStaleDraw(s: seq<Anecdote>, candidates: seq<Anecdote>, draws: seq<nat>, i: nat)
    requires |candidates| == |draws|
    requires forall k :: 0 <= k < |draws| ==> draws[k] <= 10000
    requires i < |draws| && Decimal(draws[i]) in Ids(s)
    ensures !UniqueIds(AppendedAll(s, candidates, draws))
  {
    AppendedAllOrder(s, candidates, draws);
    var t := AppendedAll(s, candidates, draws);
    var k :| 0 <= k < |s| && Ids(s)[k] == Decimal(draws[i]);
    assert t[k] == t[..|s|][k] == s[k];
    assert t[k].id == t[|s| + i].id;
  }

  // ---- vote ------------------------------------------------------------

  /** With distinct ids exactly one record changes: the one carrying `id`,
      which gains one vote. */
  lemma VotedUnique(s: seq<Anecdote>, id: string)
    requires UniqueIds(s) && id in Ids(s)
    ensures Voted(s, id).Some?
    ensures Voted(s, id).value == s[FindIndex(s, id).value := Bump(s[FindIndex(s, id).value])]
  {
  }

  /** A vote never changes the ids, so distinct ids stay distinct. */
  lemma VotedKeepsIds(s: seq<Anecdote>, id: string)
    requires id in Ids(s)
    ensures Ids(Voted(s, id).value) == Ids(s)
    ensures UniqueIds(s) ==> UniqueIds(Voted(s, id).value)
  {
  }

  /** Replacing one record changes the total by the difference of votes. */
  lemma {:induction false} TotalVotesUpdate(s: seq<Anecdote>, k: nat, a: Anecdote)
    requires k < |s|
    ensures TotalVotes(s[k := a]) + s[k].votes == TotalVotes(s) + a.votes
    decreases |s|
  {
    if k == 0 {
      assert s[k := a][1..] == s[1..];
    } else {
      TotalVotesUpdate(s[1..], k - 1, a);
      assert s[k := a][1..] == s[1..][k - 1 := a];
    }
  }

  /** With distinct ids a vote adds exactly one to the sum of all votes. */
  lemma VotedTotal(s: seq<Anecdote>, id: string)
    requires UniqueIds(s) && id in Ids(s)
    ensures TotalVotes(Voted(s, id).value) == TotalVotes(s) + 1
  {
    var k := FindIndex(s, id).value;
    VotedUnique(s, id);
    TotalVotesUpdate(s, k, Bump(s[k]));
  }

  /** Lookups after a vote, with distinct ids: the voted id finds its record
      with one more vote, every other id finds what it found before. */
  lemma VotedLookup(s: seq<Anecdote>, id: string, other: string)
    requires UniqueIds(s) && id in Ids(s)
    ensures FindById(Voted(s, id).value, id) == Some(Bump(FindById(s, id).value))
    ensures other != id ==> FindById(Voted(s, id).value, other) == FindById(s, other)
  {
    var t := Voted(s, id).value;
    var k := FindIndex(s, id).value;
    VotedUnique(s, id);
    VotedKeepsIds(s, id);
    assert FindIndex(t, id) == FindIndex(s, id) by {
      var r := FindIndex(t, id).value;
      assert t[r].id == s[r].id && t[k].id == s[k].id;
    }
    if other != id && other in Ids(s) {
      var m := FindIndex(s, other).value;
      var r := FindIndex(t, other).value;
      assert t[r].id == s[r].id && t[m].id == s[m].id;
      assert r == m;
    }
    if other != id && other !in Ids(s) {
      assert Ids(t) == Ids(s);
    }
  }

  /** Without distinct ids a vote overwrites: a later record sharing the id
      becomes a copy of the first one, and its own vote count can fall. */
  lemma VotedOverwritesDuplicate()
    ensures var s := [Anecdote("first", "", "", 0, "7"), Anecdote("second", "", "", 5, "7")];
            Voted(s, "7") == Some([Anecdote("first", "", "", 1, "7"), Anecdote("first", "", "", 1, "7")])
  {
    var s := [Anecdote("first", "", "", 0, "7"), Anecdote("second", "", "", 5, "7")];
    assert FindIndex(s, "7") == Some(0);
    assert Ids(s)[0] == "7";
    var t := Voted(s, "7").value;
    assert |t| == 2;
    assert t[0] == Anecdote("first", "", "", 1, "7") && t[1] == Anecdote("first", "", "", 1, "7");
    assert t == [t[0], t[1]];
  }

  /** Voting for the first seed record: it has one vote, the second none. */
  lemma VoteOnSeed()
    ensures Voted(Seed(), "1") == Some([Bump(Seed()[0]), Seed()[1]])
  {
    SeedUnique();
    assert Ids(Seed())[0] == "1";
    VotedUnique(Seed(), "1");
    var t := Voted(Seed(), "1").value;
    assert FindIndex(Seed(), "1") == Some(0);
    assert |t| == 2;
    assert t[0] == Bump(Seed()[0]) && t[1] == Seed()[1];
    assert t == [t[0], t[1]];
  }

  /** Looking up an id no seed record has finds nothing, and voting for it
      fails. */
  lemma MissOnSeed()
    ensures FindById(Seed(), "999") == None
    ensures Voted(Seed(), "999") == None
  {
  }
}
