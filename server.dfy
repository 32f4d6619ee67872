/**
 * The read side of the web server (server.js): the repertoire document is
 * loaded once, with a fixed fallback when loading fails, and two handlers
 * scan it. `/api/search` lists the names of participants who know a piece
 * matching a query, up to a cap, and `/api/pieces` lists every distinct
 * piece title in the order it is first met.
 */
module Api {
  import opened Seqs
  import opened Text
  import opened Document

  /** `req.query.piece?.toLowerCase() || ""`: a missing query is the empty string. */
  function QueryOf(piece: Option<string>): string {
    match piece
    case None => ""
    case Some(p) => Lower(p)
  }

  /**
   * `parseInt(req.query.count) || 1000`: `None` is a missing or non-numeric
   * parameter (NaN); NaN and 0 are falsy and fall back to 1000.
   */
  function CountOf(count: Option<int>): int {
    match count
    case None => 1000
    case Some(n) => if n == 0 then 1000 else n
  }

  /** `participant["Репертуар"].some(p => p.toLowerCase().includes(q))`. */
  predicate Knows(p: Participant, q: string) {
    exists i | 0 <= i < |p.pieces| :: Contains(Lower(p.pieces[i]), q)
  }

  /** What one participant adds to the full match list: their name once, or nothing. */
  function MatchOf(q: string): Participant -> seq<string> {
    p => if Knows(p, q) then [p.name] else []
  }

  /** The names of the matching participants among `ps`, in order. */
  function GroupMatches(ps: seq<Participant>, q: string): seq<string> {
    FlatMap(MatchOf(q), ps)
  }

  /** Every match of the document, groups in order, then participants in order. */
  function Matches(doc: Doc, q: string): seq<string> {
    GroupMatches(AllParticipants(doc), q)
  }

  /**
   * What the search returns. With a cap of at least 1 it is the first `cap`
   * matches. With a negative cap the check after the first push stops the
   * inner loop, and the check after the first group stops the outer loop even
   * when nothing was found, so only the first group is looked at.
   */
  function SearchResult(doc: Doc, q: string, cap: int): seq<string> {
    if cap >= 1 then Take(Matches(doc, q), cap)
    else if doc == [] then []
    else Take(GroupMatches(doc[0].participants, q), 1)
  }

  /** The data served when the repertoire file cannot be loaded: two empty groups. */
  const FallbackData: Doc := [Group("Үлкен топ", []), Group("Кіші топ", [])]

  /** `require("./repertoire.json")`, or the fallback when it throws (`None`). */
  function LoadedData(loaded: Option<Doc>): Doc {
    match loaded
    case None => FallbackData
    case Some(doc) => doc
  }

  /** One more participant in the inner loop. */
  lemma GroupMatchesStep(ps: seq<Participant>, q: string, j: nat)
    requires j < |ps|
    ensures GroupMatches(ps[..j + 1], q) == GroupMatches(ps[..j], q) + MatchOf(q)(ps[j])
  {
    FlatMapPrefixStep(MatchOf(q), ps, j);
  }

  /** One more group in the outer loop. */
  lemma MatchesStep(doc: Doc, q: string, g: nat)
    requires g < |doc|
    ensures Matches(doc[..g + 1], q) == Matches(doc[..g], q) + GroupMatches(doc[g].participants, q)
  {
    AllParticipantsStep(doc, g);
    FlatMapAppend(MatchOf(q), AllParticipants(doc[..g]), doc[g].participants);
  }

  /** The matches seen before participant `j` of group `g` begin the full match list. */
  lemma ScannedIsPrefix(doc: Doc, q: string, g: nat, j: nat)
    requires g < |doc| && j <= |doc[g].participants|
    ensures IsPrefix(Matches(doc[..g], q) + GroupMatches(doc[g].participants[..j], q), Matches(doc, q))
  {
    var ps := doc[g].participants;
    assert doc == doc[..g + 1] + doc[g + 1..];
    AllParticipantsStep(doc, g);
    FlatMapAppend(ParticipantsOf, doc[..g + 1], doc[g + 1..]);
    assert ps == ps[..j] + ps[j..];
    var rest := ps[j..] + AllParticipants(doc[g + 1..]);
    assert AllParticipants(doc) == (AllParticipants(doc[..g]) + ps[..j]) + rest;
    FlatMapAppend(MatchOf(q), AllParticipants(doc[..g]) + ps[..j], rest);
    FlatMapAppend(MatchOf(q), AllParticipants(doc[..g]), ps[..j]);
  }

  /**
   * The search stops at participant `j` of group `g` (just after it, when it
   * was pushed): what has been collected by then is the search result. With a
   * cap of at least 1 the cap has been reached; with a negative cap the scan is
   * still in the first group and has found at most one name, and stops either
   * at that name or at the end of the group.
   */
  lemma CapReached(doc: Doc, q: string, cap: int, g: nat, j: nat)
    requires g < |doc| && j <= |doc[g].participants|
    requires var s := Matches(doc[..g], q) + GroupMatches(doc[g].participants[..j], q);
      (cap >= 1 && |s| == cap)
      || (cap < 1 && g == 0 && |s| <= 1 && (|s| == 1 || j == |doc[g].participants|))
    ensures Matches(doc[..g], q) + GroupMatches(doc[g].participants[..j], q) == SearchResult(doc, q, cap)
  {
    var ps := doc[g].participants;
    if cap >= 1 {
      ScannedIsPrefix(doc, q, g, j);
    } else {
      assert doc[..g] == [];
      FlatMapAppend(MatchOf(q), ps[..j], ps[j..]);
      assert ps[..j] + ps[j..] == ps;
    }
  }

  /**
   * The inner loop of `/api/search` over the participants of one group,
   * starting from the names `found` so far: a participant's name is pushed on
   * its first matching piece, and the loop breaks as soon as `count` names
   * are collected. It stops early only once `max(count, 1)` names are there;
   * `stop` is the number of participants looked at.
   */
  method ScanGroup(ps: seq<Participant>, q: string, cap: int, found: seq<string>)
    returns (results: seq<string>, stop: nat)
    requires |found| < Max(cap, 1)
    ensures stop <= |ps| && results == found + GroupMatches(ps[..stop], q)
    ensures |results| <= Max(cap, 1)
    ensures stop < |ps| ==> |results| == Max(cap, 1)
  {
    results := found;
    for j := 0 to |ps|
      invariant results == found + GroupMatches(ps[..j], q)
      invariant |results| < Max(cap, 1)
    {
      GroupMatchesStep(ps, q, j);
      AppendAssoc(found, GroupMatches(ps[..j], q), MatchOf(q)(ps[j]));
      if Knows(ps[j], q) {
        results := results + [ps[j].name];
        if |results| >= cap {
          return results, j + 1;
        }
      }
    }
    stop := |ps|;
  }

  /** `forEach(piece => pieces.add(piece))`: the set's order after adding one participant's titles. */
  method AddTitles(pieces: seq<string>, titles0: seq<string>, ghost seen: seq<string>) returns (titles: seq<string>)
    requires titles0 == Dedup(seen)
    ensures titles == Dedup(seen + pieces)
  {
    titles := titles0;
    assert seen + pieces[..0] == seen;
    for t := 0 to |pieces|
      invariant titles == Dedup(seen + pieces[..t])
    {
      DedupSnoc(seen + pieces[..t], pieces[t]);
      if pieces[t] !in titles {
        titles := titles + [pieces[t]];
      }
      PrefixSnoc(seen, pieces, t);
    }
    assert pieces[..|pieces|] == pieces;
  }

  /** The loop over one group's participants: the set's order after adding all their titles. */
  method AddGroupTitles(ps: seq<Participant>, titles0: seq<string>, ghost seen: seq<string>) returns (titles: seq<string>)
    requires titles0 == Dedup(seen)
    ensures titles == Dedup(seen + PiecesOf(ps))
  {
    titles := titles0;
    assert PiecesOf(ps[..0]) == [] && seen + [] == seen;
    for j := 0 to |ps|
      invariant titles == Dedup(seen + PiecesOf(ps[..j]))
    {
      titles := AddTitles(ps[j].pieces, titles, seen + PiecesOf(ps[..j]));
      PiecesOfStep(ps, j);
      AppendAssoc(seen, PiecesOf(ps[..j]), ps[j].pieces);
    }
    assert ps[..|ps|] == ps;
  }

  /** The search handler's state: the loaded document, assigned once. */
  class Server {
    const data: Doc

    /** Loads the document; `None` stands for a file that is missing or does not parse. */
    constructor(loaded: Option<Doc>)
      ensures data == LoadedData(loaded)
    {
      data := LoadedData(loaded);
    }

    /**
     * `/api/search`: the two loops over groups and participants, pushing a
     * participant's name on its first matching piece and breaking out of
     * both loops once the cap is reached.
     */
    method Search(piece: Option<string>, count: Option<int>) returns (results: seq<string>)
      ensures results == SearchResult(data, QueryOf(piece), CountOf(count))
    {
      var q := QueryOf(piece);
      var cap := CountOf(count);
      results := [];
      for g := 0 to |data|
        invariant results == Matches(data[..g], q)
        invariant g == 0 || cap >= 1
        invariant cap >= 1 ==> |results| < cap
      {
        var ps := data[g].participants;
        if g == 0 {
          assert data[..0] == [];
        }
        var stop;
        results, stop := ScanGroup(ps, q, cap, results);
        if |results| >= cap {
          CapReached(data, q, cap, g, stop);
          break;
        }
        MatchesStep(data, q, g);
        assert ps[..|ps|] == ps;
      }
      if |results| < cap {
        assert data[..|data|] == data;
      }
    }

    /**
     * `/api/pieces`: every title of every participant added to a `Set`,
     * which keeps insertion order; `titles` is that order.
     */
    method Pieces() returns (titles: seq<string>)
      ensures titles == Dedup(AllTitles(data))
    {
      titles := [];
      for g := 0 to |data|
        invariant titles == Dedup(AllTitles(data[..g]))
      {
        AllTitlesStep(data, g);
        titles := AddGroupTitles(data[g].participants, titles, AllTitles(data[..g]));
      }
      assert data[..|data|] == data;
    }
  }

  /** One more group: the titles of `doc[..g + 1]` are those of `doc[..g]`, then group `g`'s. */
  lemma AllTitlesStep(doc: Doc, g: nat)
    requires g < |doc|
    ensures AllTitles(doc[..g + 1]) == AllTitles(doc[..g]) + PiecesOf(doc[g].participants)
  {
    AllParticipantsStep(doc, g);
    FlatMapAppend(PiecesOfParticipant, AllParticipants(doc[..g]), doc[g].participants);
  }

  /**
   * The cap: with a cap of at least 1 the search returns `cap` matches, or
   * all of them when there are fewer; with a negative cap it returns at most one.
   */
  lemma SearchCap(doc: Doc, q: string, cap: int)
    ensures cap >= 1 ==> |SearchResult(doc, q, cap)| == Min(cap, |Matches(doc, q)|)
    ensures cap < 1 ==> |SearchResult(doc, q, cap)| <= 1
  {
  }

  /**
   * Results come in group order, then participant order: whatever the cap,
   * the search returns a prefix of the full match list.
   */
  lemma SearchIsPrefixOfMatches(doc: Doc, q: string, cap: int)
    ensures IsPrefix(SearchResult(doc, q, cap), Matches(doc, q))
  {
    if cap < 1 && doc != [] {
      var first := GroupMatches(doc[0].participants, q);
      ScannedIsPrefix(doc, q, 0, |doc[0].participants|);
      assert doc[0].participants[..|doc[0].participants|] == doc[0].participants;
      assert doc[..0] == [];
      assert IsPrefix(first, Matches(doc, q));
    }
  }

  /** A name is in the full match list exactly when some participant with that name knows a matching piece. */
  lemma MatchesMembership(doc: Doc, q: string, name: string)
    ensures name in Matches(doc, q)
      <==> exists p | p in AllParticipants(doc) :: p.name == name && Knows(p, q)
  {
    var ps := AllParticipants(doc);
    FlatMapMembership(MatchOf(q), ps, name);
    if exists p | p in ps :: p.name == name && Knows(p, q) {
      var p :| p in ps && p.name == name && Knows(p, q);
      var k :| 0 <= k < |ps| && ps[k] == p;
      assert name in MatchOf(q)(ps[k]);
    }
  }

  /** Every name the search returns belongs to a participant who knows a matching piece. */
  lemma SearchResultsKnow(doc: Doc, q: string, cap: int, name: string)
    requires name in SearchResult(doc, q, cap)
    ensures exists p | p in AllParticipants(doc) :: p.name == name && Knows(p, q)
  {
    SearchIsPrefixOfMatches(doc, q, cap);
    var r := SearchResult(doc, q, cap);
    var k :| 0 <= k < |r| && r[k] == name;
    assert Matches(doc, q)[k] == name;
    MatchesMembership(doc, q, name);
  }

  /** How many of `ps` are called `name` and know a piece that matches `q`. */
  function KnowersNamed(ps: seq<Participant>, q: string, name: string): nat
    decreases |ps|
  {
    if ps == [] then 0
    else
      var p := ps[|ps| - 1];
      KnowersNamed(ps[..|ps| - 1], q, name) + (if p.name == name && Knows(p, q) then 1 else 0)
  }

  /** In one list of participants, a name is matched once for each knowing participant with that name. */
  lemma {:induction false} GroupMatchCount(ps: seq<Participant>, q: string, name: string)
    ensures Count(GroupMatches(ps, q), name) == KnowersNamed(ps, q, name)
    decreases |ps|
  {
    if ps != [] {
      var n := |ps| - 1;
      assert ps == ps[..n] + [ps[n]];
      FlatMapSnoc(MatchOf(q), ps[..n], ps[n]);
      CountAppend(GroupMatches(ps[..n], q), MatchOf(q)(ps[n]), name);
      GroupMatchCount(ps[..n], q, name);
      assert Count(MatchOf(q)(ps[n]), name) == if ps[n].name == name && Knows(ps[n], q) then 1 else 0 by {
        if Knows(ps[n], q) {
          assert [ps[n].name][..0] == [];
        }
      }
    }
  }

  /**
   * Every participant adds at most one entry: a name occurs in the match list
   * once for each participant with that name who knows a matching piece, so
   * the list is no longer than the participant list.
   */
  lemma AtMostOneHitPerParticipant(doc: Doc, q: string, name: string)
    ensures Count(Matches(doc, q), name) == KnowersNamed(AllParticipants(doc), q, name)
    ensures |Matches(doc, q)| <= |AllParticipants(doc)|
  {
    var ps := AllParticipants(doc);
    GroupMatchCount(ps, q, name);
    FlatMapLength(MatchOf(q), ps, 1);
  }

  /** The same participant listed in two groups is returned twice: names are not de-duplicated. */
  lemma NameListedTwice(first: string, second: string, p: Participant, q: string)
    requires Knows(p, q)
    ensures Matches([Group(first, [p]), Group(second, [p])], q) == [p.name, p.name]
  {
    TwoGroupsParticipants(first, second, p);
    MatchesTwice(p, q);
  }

  /** Two one-member groups of the same participant list that participant twice. */
  lemma TwoGroupsParticipants(first: string, second: string, p: Participant)
    ensures AllParticipants([Group(first, [p]), Group(second, [p])]) == [p, p]
  {
    var g1, g2 := Group(first, [p]), Group(second, [p]);
    FlatMapSnoc(ParticipantsOf, [], g1);
    assert [g1] + [g2] == [g1, g2];
    FlatMapSnoc(ParticipantsOf, [g1], g2);
  }

  /** A knowing participant listed twice is matched twice. */
  lemma MatchesTwice(p: Participant, q: string)
    requires Knows(p, q)
    ensures GroupMatches([p, p], q) == [p.name, p.name]
  {
    FlatMapSnoc(MatchOf(q), [], p);
    assert [p] + [p] == [p, p];
    FlatMapSnoc(MatchOf(q), [p], p);
  }



  /** The empty query is contained in every title: it matches exactly the participants with a piece. */
  lemma EmptyQueryMatchesNonEmptyRepertoires(p: Participant)
    ensures Knows(p, QueryOf(None)) <==> p.pieces != []
  {
    if p.pieces != [] {
      ContainsEmpty(Lower(p.pieces[0]));
    }
  }

  /**
   * A missing count and a count of 0 both mean 1000, so on a document with at
   * most 1000 participants they return every match.
   */
  lemma DefaultCap(doc: Doc, q: string)
    ensures SearchResult(doc, q, CountOf(Some(0))) == SearchResult(doc, q, CountOf(None))
    ensures |AllParticipants(doc)| <= 1000 ==> SearchResult(doc, q, CountOf(None)) == Matches(doc, q)
  {
    AtMostOneHitPerParticipant(doc, q, "");
  }

  /** With a negative cap a match in the second group is not found, although it is in the match list. */
  lemma NegativeCapScansFirstGroupOnly()
    ensures var doc := [Group("a", []), Group("b", [Participant("X", ["kui"])])];
      SearchResult(doc, "kui", -1) == [] && Matches(doc, "kui") == ["X"]
  {
    var doc := [Group("a", []), Group("b", [Participant("X", ["kui"])])];
    var x := Participant("X", ["kui"]);
    assert Lower("kui") == "kui";
    assert Contains("kui", "kui");
    assert x.pieces[0] == "kui";
    assert Knows(x, "kui");
    assert AllParticipants(doc) == [x] by {
      FlatMapSnoc(ParticipantsOf, [doc[0]], doc[1]);
      FlatMapSnoc(ParticipantsOf, [], doc[0]);
      assert [doc[0]] + [doc[1]] == doc;
    }
    FlatMapSnoc(MatchOf("kui"), [], x);
  }

  /** With the fallback data both handlers serve empty lists. */
  lemma FallbackServesNothing(q: string, cap: int)
    ensures SearchResult(LoadedData(None), q, cap) == []
    ensures Dedup(AllTitles(LoadedData(None))) == []
  {
    var doc := LoadedData(None);
    assert AllParticipants(doc) == [] by {
      FlatMapSnoc(ParticipantsOf, [doc[0]], doc[1]);
      FlatMapSnoc(ParticipantsOf, [], doc[0]);
      assert [doc[0]] + [doc[1]] == doc;
    }
  }

  /**
   * The pieces listing: every title of every participant, each exactly once,
   * in the order in which the scan first meets it.
   */
  lemma PiecesListing(doc: Doc)
    ensures NoDups(Dedup(AllTitles(doc)))
    ensures forall t :: (t in Dedup(AllTitles(doc))
      <==> exists p | p in AllParticipants(doc) :: t in p.pieces)
    ensures forall i, j | 0 <= i < j < |Dedup(AllTitles(doc))| ::
      FirstIndex(AllTitles(doc), Dedup(AllTitles(doc))[i]) < FirstIndex(AllTitles(doc), Dedup(AllTitles(doc))[j])
  {
    var ps := AllParticipants(doc);
    forall t ensures t in Dedup(AllTitles(doc)) <==> exists p | p in ps :: t in p.pieces {
      FlatMapMembership(PiecesOfParticipant, ps, t);
      if exists p | p in ps :: t in p.pieces {
        var p :| p in ps && t in p.pieces;
        var k :| 0 <= k < |ps| && ps[k] == p;
        assert t in PiecesOfParticipant(ps[k]);
      }
    }
    DedupKeepsFirstOccurrenceOrder(AllTitles(doc));
  }

  /**
   * The listing is not sorted: for any two distinct titles, a repertoire
   * `[b, a, b]` is listed as `[b, a]`, whichever of the two sorts first.
   */
  lemma PiecesNotSorted(groupName: string, name: string, b: string, a: string)
    requires b != a
    ensures Dedup(AllTitles([Group(groupName, [Participant(name, [b, a, b])])])) == [b, a]
  {
    var p := Participant(name, [b, a, b]);
    var doc := [Group(groupName, [p])];
    assert AllTitles(doc) == [b, a, b] by {
      FlatMapSnoc(ParticipantsOf, [], doc[0]);
      assert AllParticipants(doc) == [p];
      FlatMapSnoc(PiecesOfParticipant, [], p);
    }
    RepeatDropped(b, a);
  }

  /** A title met again after another one is dropped; the two keep the order in which they were met. */
  lemma RepeatDropped(b: string, a: string)
    requires b != a
    ensures Dedup([b, a, b]) == [b, a]
  {
    assert Dedup([b]) == [b] by {
      DedupSnoc([], b);
    }
    assert Dedup([b, a]) == [b, a] by {
      DedupSnoc([b], a);
      assert [b] + [a] == [b, a];
    }
    DedupSnoc([b, a], b);
    assert [b, a] + [b] == [b, a, b];
  }


}
