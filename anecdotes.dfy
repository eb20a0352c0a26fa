/** The anecdote table held by the root component: its records, the two seed
    records, and the pure parts of its three operations (append with a
    stamped id, lookup by id, and the copy-and-replace of a vote). */
module Anecdotes {
  import opened Wrappers
  import opened Numerals

  /** One record of the table, with the fields the source gives it. */
  datatype Anecdote = Anecdote(content: string, author: string, info: string, votes: nat, id: string)

  /** The table as the application starts: ids "1" and "2", no votes. */
  function Seed(): (s: seq<Anecdote>)
    ensures |s| == 2 && s[0].id == "1" && s[1].id == "2"
    ensures s[0].votes == 0 && s[1].votes == 0
  {
    [ Anecdote("If it hurts, do it more often", "Jez Humble",
               "https://martinfowler.com/bliki/FrequencyReducesDifficulty.html", 0, "1"),
      Anecdote("Premature optimization is the root of all evil", "Donald Knuth",
               "http://wiki.c2.com/?PrematureOptimization", 0, "2") ]
  }

  /** The ids of the table, in table order. */
  function Ids(s: seq<Anecdote>): (r: seq<string>)
    ensures |r| == |s|
    ensures forall i :: 0 <= i < |s| ==> r[i] == s[i].id
  {
    seq(|s|, i requires 0 <= i < |s| => s[i].id)
  }

  /** No two records share an id. */
  predicate UniqueIds(s: seq<Anecdote>) {
    forall i, j :: 0 <= i < j < |s| ==> s[i].id != s[j].id
  }

  /** Position of the first record carrying `id`, scanning from the front. */
  function FindIndex(s: seq<Anecdote>, id: string): (r: Option<nat>)
    ensures r.None? <==> id !in Ids(s)
    ensures r.Some? ==> r.value < |s| && s[r.value].id == id
    ensures r.Some? ==> forall j :: 0 <= j < r.value ==> s[j].id != id
  {
    if s == [] then None
    else if s[0].id == id then Some(0)
    else match FindIndex(s[1..], id)
      case None => assert Ids(s) == [s[0].id] + Ids(s[1..]); None
      case Some(k) => Some(k + 1)
  }

  /** `anecdoteById`: the first record whose id equals `id`, or nothing. */
  function FindById(s: seq<Anecdote>, id: string): (r: Option<Anecdote>)
    ensures r.None? <==> (forall i :: 0 <= i < |s| ==> s[i].id != id)
    ensures r.Some? ==> exists k :: 0 <= k < |s| && s[k] == r.value && r.value.id == id
                                    && forall j :: 0 <= j < k ==> s[j].id != id
  {
    match FindIndex(s, id)
    case None => None
    case Some(k) => Some(s[k])
  }

  /** The record `addNew` appends: the submitted fields with the drawn id
      written over whatever id the candidate had. */
  function Stamp(candidate: Anecdote, n: nat): (a: Anecdote)
    requires n <= 10000
    ensures a.content == candidate.content && a.author == candidate.author
    ensures a.info == candidate.info && a.votes == candidate.votes
    ensures Canonical(a.id) && 1 <= |a.id| <= 5 && Value(a.id) == n
  {
    IdLength(n);
    ValueOfDecimal(n);
    candidate.(id := Decimal(n))
  }

  /** The table after `addNew(candidate)` with random draw `n`. */
  function Appended(s: seq<Anecdote>, candidate: Anecdote, n: nat): (t: seq<Anecdote>)
    requires n <= 10000
    ensures |t| == |s| + 1
    ensures t[..|s|] == s
    ensures t[|s|] == Stamp(candidate, n)
  {
    s + [Stamp(candidate, n)]
  }

  /** The `map` of `vote`: every record carrying `id` becomes `voted`, every
      other record stays as it is. */
  function Replace(s: seq<Anecdote>, id: string, voted: Anecdote): (t: seq<Anecdote>)
    ensures |t| == |s|
    ensures forall i :: 0 <= i < |s| ==> t[i] == (if s[i].id == id then voted else s[i])
  {
    if s == [] then []
    else [if s[0].id == id then voted else s[0]] + Replace(s[1..], id, voted)
  }

  /** A vote on a record: the same record with one more vote. */
  function Bump(a: Anecdote): (b: Anecdote)
    ensures b.votes == a.votes + 1
    ensures b.content == a.content && b.author == a.author && b.info == a.info && b.id == a.id
  {
    a.(votes := a.votes + 1)
  }

  /** The table after `vote(id)`, or `None` when the lookup misses and the
      source fails reading `votes` of the absent record. */
  function Voted(s: seq<Anecdote>, id: string): (r: Option<seq<Anecdote>>)
    ensures r.None? <==> id !in Ids(s)
    ensures r.Some? ==> |r.value| == |s|
    ensures r.Some? ==> forall i :: 0 <= i < |s| && s[i].id != id ==> r.value[i] == s[i]
    ensures r.Some? ==> forall i :: 0 <= i < |s| && s[i].id == id ==>
                          r.value[i] == Bump(s[FindIndex(s, id).value])
  {
    match FindById(s, id)
    case None => None
    case Some(a) => Some(Replace(s, id, Bump(a)))
  }

  /** Sum of the vote counters. */
  function TotalVotes(s: seq<Anecdote>): nat {
    if s == [] then 0 else s[0].votes + TotalVotes(s[1..])
  }
}
