/**
 * The JSON import into the graph store (import.js, over the tables created by
 * init-db.js). For every (participant, piece) of the cleaned document the
 * import upserts the person, upserts the piece and inserts the `knows` edge,
 * each statement with insert-or-fetch semantics. A failing statement is
 * caught for that pair alone. There is no transaction, so earlier statements
 * of the pair stay applied.
 *
 * The store is an in-memory model of the three tables. Database failures come
 * from an oracle: a sequence of faults indexed by the pair's position in the
 * enumeration.
 */
module GraphImport {
  import opened Seqs
  import opened Text
  import opened Document

  /**
   * A table with `id SERIAL PRIMARY KEY` and a `UNIQUE` text column: the ids
   * by key, and the next value of the id sequence.
   */
  datatype Table = Table(ids: map<string, int>, next: int)

  /** The `people` and `pieces` tables and the `knows` edges (person id, piece id). */
  datatype Graph = Graph(people: Table, pieces: Table, knows: set<(int, int)>)

  /** The freshly created tables: empty, each id sequence starting at 1. */
  const EmptyGraph: Graph := Graph(Table(map[], 1), Table(map[], 1), {})

  /** A stored name or title: `NOT NULL`, and as the import writes it, trimmed and non-empty. */
  predicate IsKey(k: string) {
    k != "" && Trim(k) == k
  }

  /** The constraints of one table: ids from the sequence, `PRIMARY KEY` (distinct ids), stored keys. */
  predicate TableValid(t: Table) {
    t.next >= 1
    && (forall k | k in t.ids :: 1 <= t.ids[k] < t.next && IsKey(k))
    && (forall k, l | k in t.ids && l in t.ids && k != l :: t.ids[k] != t.ids[l])
  }

  /** Both tables are valid and every edge references a stored person and a stored piece. */
  predicate GraphValid(g: Graph) {
    TableValid(g.people) && TableValid(g.pieces)
    && forall e | e in g.knows :: e.0 in g.people.ids.Values && e.1 in g.pieces.ids.Values
  }

  /**
   * `INSERT .. ON CONFLICT DO NOTHING RETURNING id`, then `SELECT id` when
   * no row came back: the stored row's id. The insert draws a value from the
   * id sequence even when the key is already there.
   */
  function Upsert(t: Table, key: string): (Table, int) {
    if key in t.ids then (Table(t.ids, t.next + 1), t.ids[key])
    else (Table(t.ids[key := t.next], t.next + 1), t.next)
  }

  /** A database failure chosen by the oracle for one (name, title) pair. */
  datatype Fault = NoFault | ConnectFails | PersonFails | PieceFails | KnowsFails

  /** What happened to one (name, title) pair. */
  datatype Outcome = Skipped | Imported | Failed | Aborted

  /** The oracle's fault for pair number `n`; pairs beyond the sequence meet no fault. */
  function FaultAt(faults: seq<Fault>, n: nat): Fault {
    if n < |faults| then faults[n] else NoFault
  }

  /** The pair is skipped: a falsy (empty) name or title, or one that trims to the empty string. */
  predicate Rejects(name: string, title: string) {
    name == "" || title == "" || Trim(name) == "" || Trim(title) == ""
  }

  /**
   * The `try` block for one pair, on the trimmed name and title: person,
   * piece, edge, stopping at the first failing statement. Returns the new
   * store and whether all three statements succeeded.
   */
  function TryBody(g: Graph, name: string, title: string, fault: Fault): (Graph, bool) {
    if fault == PersonFails then (g, false)
    else
      var (people, personId) := Upsert(g.people, name);
      if fault == PieceFails then (g.(people := people), false)
      else
        var (pieces, pieceId) := Upsert(g.pieces, title);
        if fault == KnowsFails then (g.(people := people, pieces := pieces), false)
        else (Graph(people, pieces, g.knows + {(personId, pieceId)}), true)
  }

  /**
   * One pair of the loop: the validity check, `pool.connect()` (outside the
   * `try`, so its failure ends the whole run), then the `try` block.
   */
  function ImportOne(g: Graph, name: string, title: string, fault: Fault): (Graph, Outcome) {
    if Rejects(name, title) then (g, Skipped)
    else if fault == ConnectFails then (g, Aborted)
    else
      var (h, ok) := TryBody(g, Trim(name), Trim(title), fault);
      (h, if ok then Imported else Failed)
  }

  /** The store, `importedCount`, and whether the run has been aborted. */
  datatype RunState = RunState(graph: Graph, imported: nat, aborted: bool)

  /** The loop body for one pair; nothing happens once the run is aborted. */
  function Step(st: RunState, pair: (string, string), fault: Fault): RunState {
    if st.aborted then st
    else
      var (g, outcome) := ImportOne(st.graph, pair.0, pair.1, fault);
      RunState(g, st.imported + (if outcome == Imported then 1 else 0), outcome == Aborted)
  }

  /** The import loop over `pairs`, pair number `n` meeting `FaultAt(faults, n)`. */
  function Run(g: Graph, pairs: seq<(string, string)>, faults: seq<Fault>): RunState
    decreases |pairs|
  {
    if pairs == [] then RunState(g, 0, false)
    else
      var n := |pairs| - 1;
      Step(Run(g, pairs[..n], faults), pairs[n], FaultAt(faults, n))
  }

  /** The (name, title) pairs of one participant: one per piece, in order. */
  function PairsOf(p: Participant): seq<(string, string)> {
    seq(|p.pieces|, i requires 0 <= i < |p.pieces| => (p.name, p.pieces[i]))
  }

  /** Every (name, title) pair of the document: groups, participants and pieces in order. */
  function Pairs(doc: Doc): seq<(string, string)> {
    FlatMap(PairsOf, AllParticipants(doc))
  }

  /** The name and the title are stored and linked by an edge. */
  predicate Linked(g: Graph, name: string, title: string) {
    name in g.people.ids && title in g.pieces.ids
    && (g.people.ids[name], g.pieces.ids[title]) in g.knows
  }

  /** Every pair that is not skipped is stored and linked, under its trimmed name and title. */
  predicate Covers(g: Graph, pairs: seq<(string, string)>) {
    forall i | 0 <= i < |pairs| && !Rejects(pairs[i].0, pairs[i].1) ::
      Linked(g, Trim(pairs[i].0), Trim(pairs[i].1))
  }

  /** `h` keeps every row of `g` with its id, and every edge of `g`. */
  predicate Extends(g: Graph, h: Graph) {
    (forall k | k in g.people.ids :: k in h.people.ids && h.people.ids[k] == g.people.ids[k])
    && (forall k | k in g.pieces.ids :: k in h.pieces.ids && h.pieces.ids[k] == g.pieces.ids[k])
    && g.knows <= h.knows
  }

  /** The rows and edges are the same; only the id sequences may have moved on. */
  predicate SameContents(g: Graph, h: Graph) {
    g.people.ids == h.people.ids && g.pieces.ids == h.pieces.ids && g.knows == h.knows
  }

  /** The number of pairs that are not skipped and meet no fault. */
  function Successes(pairs: seq<(string, string)>, faults: seq<Fault>): nat
    decreases |pairs|
  {
    if pairs == [] then 0
    else
      var n := |pairs| - 1;
      Successes(pairs[..n], faults)
      + (if !Rejects(pairs[n].0, pairs[n].1) && FaultAt(faults, n) == NoFault then 1 else 0)
  }

  // ----- Upsert -----

  /**
   * After an upsert the key is stored and the returned id is its id; an
   * existing key keeps its id and every other row is unchanged.
   */
  lemma UpsertStores(t: Table, key: string)
    ensures var (u, id) := Upsert(t, key);
      key in u.ids && u.ids[key] == id
      && u.ids.Keys == t.ids.Keys + {key}
      && (key in t.ids ==> u.ids == t.ids)
      && (forall k | k in t.ids :: u.ids[k] == t.ids[k])
  {
  }

  /**
   * An upsert keeps the table's constraints: a new key gets the sequence's
   * value, which no other row has, so exactly one row holds each key and
   * each id.
   */
  lemma UpsertKeepsValid(t: Table, key: string)
    requires TableValid(t) && IsKey(key)
    ensures var (u, id) := Upsert(t, key);
      TableValid(u) && (key !in t.ids ==> id == t.next && forall k | k in t.ids :: t.ids[k] != id)
  {
  }

  // ----- One pair -----

  /** A skipped pair leaves the store unchanged and counts nothing. */
  lemma SkippedPairChangesNothing(g: Graph, name: string, title: string, fault: Fault)
    requires Rejects(name, title)
    ensures ImportOne(g, name, title, fault) == (g, Skipped)
  {
  }

  /** A pair is imported exactly when it is not skipped and all three statements succeed. */
  lemma ImportedIffNoFault(g: Graph, name: string, title: string, fault: Fault)
    ensures ImportOne(g, name, title, fault).1 == Imported <==> !Rejects(name, title) && fault == NoFault
    ensures ImportOne(g, name, title, fault).1 == Aborted <==> !Rejects(name, title) && fault == ConnectFails
  {
  }

  /**
   * An imported pair: the trimmed name and title are stored, the person and
   * piece ids are theirs (an existing id is kept), and exactly the edge
   * between them is added.
   */
  lemma ImportedPairIsLinked(g: Graph, name: string, title: string)
    requires !Rejects(name, title)
    ensures var (h, _) := ImportOne(g, name, title, NoFault);
      var n, t := Trim(name), Trim(title);
      Linked(h, n, t)
      && h.knows == g.knows + {(h.people.ids[n], h.pieces.ids[t])}
      && (n in g.people.ids ==> h.people.ids[n] == g.people.ids[n])
      && (t in g.pieces.ids ==> h.pieces.ids[t] == g.pieces.ids[t])
  {
    UpsertStores(g.people, Trim(name));
    UpsertStores(g.pieces, Trim(title));
  }

  /**
   * No transaction: when the piece statement fails the person upsert stays
   * applied, and when the edge statement fails both upserts stay applied.
   */
  lemma FailureKeepsEarlierStatements(g: Graph, name: string, title: string)
    requires !Rejects(name, title)
    ensures var (h, o) := ImportOne(g, name, title, PieceFails);
      o == Failed && Trim(name) in h.people.ids && h.pieces == g.pieces && h.knows == g.knows
    ensures var (h, o) := ImportOne(g, name, title, KnowsFails);
      o == Failed && Trim(name) in h.people.ids && Trim(title) in h.pieces.ids && h.knows == g.knows
  {
    UpsertStores(g.people, Trim(name));
    UpsertStores(g.pieces, Trim(title));
  }

  /** Every pair, whatever its fault, only adds rows and edges. */
  lemma ImportOneExtends(g: Graph, name: string, title: string, fault: Fault)
    ensures Extends(g, ImportOne(g, name, title, fault).0)
  {
    UpsertStores(g.people, Trim(name));
    UpsertStores(g.pieces, Trim(title));
  }

  /**
   * A store that only grew keeps its edges' references: valid tables, and
   * each new edge referencing a stored person and a stored piece, give a
   * valid store.
   */
  lemma GrowthKeepsValid(g: Graph, h: Graph)
    requires GraphValid(g) && Extends(g, h)
    requires TableValid(h.people) && TableValid(h.pieces)
    requires forall e | e in h.knows && e !in g.knows :: e.0 in h.people.ids.Values && e.1 in h.pieces.ids.Values
    ensures GraphValid(h)
  {
    forall e | e in g.knows ensures e.0 in h.people.ids.Values && e.1 in h.pieces.ids.Values {
      var k :| k in g.people.ids && g.people.ids[k] == e.0;
      assert h.people.ids[k] == e.0;
      var l :| l in g.pieces.ids && g.pieces.ids[l] == e.1;
      assert h.pieces.ids[l] == e.1;
    }
  }

  /** Every pair, whatever its fault, keeps the constraints of the tables. */
  lemma ImportOneKeepsValid(g: Graph, name: string, title: string, fault: Fault)
    requires GraphValid(g)
    ensures GraphValid(ImportOne(g, name, title, fault).0)
  {
    if !Rejects(name, title) && fault != ConnectFails && fault != PersonFails {
      TrimIdempotent(name);
      TrimIdempotent(title);
      var n, t := Trim(name), Trim(title);
      UpsertStores(g.people, n);
      UpsertKeepsValid(g.people, n);
      var (people, personId) := Upsert(g.people, n);
      if fault == PieceFails {
        assert ImportOne(g, name, title, fault).0 == g.(people := people);
        GrowthKeepsValid(g, g.(people := people));
      } else {
        UpsertStores(g.pieces, t);
        UpsertKeepsValid(g.pieces, t);
        var (pieces, pieceId) := Upsert(g.pieces, t);
        if fault == KnowsFails {
          assert ImportOne(g, name, title, fault).0 == g.(people := people, pieces := pieces);
          GrowthKeepsValid(g, g.(people := people, pieces := pieces));
        } else {
          var h := Graph(people, pieces, g.knows + {(personId, pieceId)});
          assert ImportOne(g, name, title, fault).0 == h;
          forall e | e in h.knows && e !in g.knows
            ensures e.0 in people.ids.Values && e.1 in pieces.ids.Values
          {
            assert e == (personId, pieceId);
          }
          GrowthKeepsValid(g, h);
        }
      }
    }
  }

  /** A pair whose trimmed name and title are already linked changes no row and no edge. */
  lemma ImportOneOnLinked(g: Graph, name: string, title: string, fault: Fault)
    requires !Rejects(name, title) ==> Linked(g, Trim(name), Trim(title))
    ensures SameContents(ImportOne(g, name, title, fault).0, g)
  {
  }

  // ----- The run -----

  /** One more pair at the end of the run. */
  lemma RunSnoc(g: Graph, pairs: seq<(string, string)>, pair: (string, string), faults: seq<Fault>)
    ensures Run(g, pairs + [pair], faults) == Step(Run(g, pairs, faults), pair, FaultAt(faults, |pairs|))
  {
    assert (pairs + [pair])[..|pairs|] == pairs;
  }

  /** A live run over one more pair: the store and outcome of `ImportOne` on that pair, counted. */
  lemma RunStep(g0: Graph, seen: seq<(string, string)>, pair: (string, string), faults: seq<Fault>,
                g: Graph, count: nat, h: Graph, outcome: Outcome)
    requires Run(g0, seen, faults) == RunState(g, count, false)
    requires (h, outcome) == ImportOne(g, pair.0, pair.1, FaultAt(faults, |seen|))
    ensures Run(g0, seen + [pair], faults)
      == RunState(h, count + (if outcome == Imported then 1 else 0), outcome == Aborted)
  {
    RunSnoc(g0, seen, pair, faults);
  }

  /** Once aborted, the rest of the pairs change nothing. */
  lemma {:induction false} RunAfterAbort(g: Graph, pairs: seq<(string, string)>, k: nat, faults: seq<Fault>)
    requires k <= |pairs| && Run(g, pairs[..k], faults).aborted
    ensures Run(g, pairs, faults) == Run(g, pairs[..k], faults)
    decreases |pairs| - k
  {
    if k < |pairs| {
      assert pairs[..k + 1][..k] == pairs[..k];
      RunAfterAbort(g, pairs, k + 1, faults);
    } else {
      assert pairs[..k] == pairs;
    }
  }

  /** The run keeps the constraints of the tables. */
  lemma {:induction false} RunKeepsValid(g: Graph, pairs: seq<(string, string)>, faults: seq<Fault>)
    requires GraphValid(g)
    ensures GraphValid(Run(g, pairs, faults).graph)
    decreases |pairs|
  {
    if pairs != [] {
      var n := |pairs| - 1;
      var st := Run(g, pairs[..n], faults);
      RunKeepsValid(g, pairs[..n], faults);
      if !st.aborted {
        ImportOneKeepsValid(st.graph, pairs[n].0, pairs[n].1, FaultAt(faults, n));
      }
    }
  }

  /** The run only adds rows and edges: no id changes, no row or edge disappears. */
  lemma {:induction false} RunExtends(g: Graph, pairs: seq<(string, string)>, faults: seq<Fault>)
    ensures Extends(g, Run(g, pairs, faults).graph)
    decreases |pairs|
  {
    if pairs != [] {
      var n := |pairs| - 1;
      var st := Run(g, pairs[..n], faults);
      RunExtends(g, pairs[..n], faults);
      if !st.aborted {
        ImportOneExtends(st.graph, pairs[n].0, pairs[n].1, FaultAt(faults, n));
      }
    }
  }

  /** `importedCount` when the run is not aborted: the pairs that are not skipped and meet no fault. */
  lemma {:induction false} ImportedCountsSuccesses(g: Graph, pairs: seq<(string, string)>, faults: seq<Fault>)
    requires !Run(g, pairs, faults).aborted
    ensures Run(g, pairs, faults).imported == Successes(pairs, faults)
    decreases |pairs|
  {
    if pairs != [] {
      var n := |pairs| - 1;
      ImportedCountsSuccesses(g, pairs[..n], faults);
      ImportedIffNoFault(Run(g, pairs[..n], faults).graph, pairs[n].0, pairs[n].1, FaultAt(faults, n));
    }
  }

  /** Pair number `i` is not skipped and meets a connection failure. */
  predicate ConnectFailsAt(pairs: seq<(string, string)>, faults: seq<Fault>, i: int) {
    0 <= i < |pairs| && !Rejects(pairs[i].0, pairs[i].1) && FaultAt(faults, i) == ConnectFails
  }

  /** One step aborts the run exactly when it was aborted or the pair meets a connection failure. */
  lemma StepAborts(st: RunState, pair: (string, string), fault: Fault)
    ensures Step(st, pair, fault).aborted <==> st.aborted || (!Rejects(pair.0, pair.1) && fault == ConnectFails)
  {
    if !st.aborted && !Rejects(pair.0, pair.1) && fault != ConnectFails {
      ImportedIffNoFault(st.graph, pair.0, pair.1, fault);
    }
  }

  /** The run is aborted exactly when some pair that is not skipped meets a connection failure. */
  lemma {:induction false} AbortedIffConnectFault(g: Graph, pairs: seq<(string, string)>, faults: seq<Fault>)
    ensures Run(g, pairs, faults).aborted <==> exists i :: ConnectFailsAt(pairs, faults, i)
    decreases |pairs|
  {
    if pairs != [] {
      var n := |pairs| - 1;
      var p := pairs[..n];
      AbortedIffConnectFault(g, p, faults);
      StepAborts(Run(g, p, faults), pairs[n], FaultAt(faults, n));
      if exists i :: ConnectFailsAt(p, faults, i) {
        var i :| ConnectFailsAt(p, faults, i);
        assert p[i] == pairs[i];
        assert ConnectFailsAt(pairs, faults, i);
      }
      if ConnectFailsAt(pairs, faults, n) {
      } else if exists i :: ConnectFailsAt(pairs, faults, i) {
        var i :| ConnectFailsAt(pairs, faults, i);
        assert p[i] == pairs[i];
        assert ConnectFailsAt(p, faults, i);
      }
    }
  }

  /** Links survive anything that extends the store. */
  lemma CoversExtends(g: Graph, h: Graph, pairs: seq<(string, string)>)
    requires Covers(g, pairs) && Extends(g, h)
    ensures Covers(h, pairs)
  {
  }

  /** A run that meets no fault stores and links every pair that is not skipped. */
  lemma {:induction false} FaultFreeRunCovers(g: Graph, pairs: seq<(string, string)>)
    ensures Covers(Run(g, pairs, []).graph, pairs)
    decreases |pairs|
  {
    if pairs != [] {
      var n := |pairs| - 1;
      var p := pairs[..n];
      var st := Run(g, p, []);
      FaultFreeRunCovers(g, p);
      AbortedIffConnectFault(g, p, []);
      var (name, title) := pairs[n];
      var h := ImportOne(st.graph, name, title, NoFault).0;
      assert Run(g, pairs, []).graph == h;
      ImportOneExtends(st.graph, name, title, NoFault);
      CoversExtends(st.graph, h, p);
      if !Rejects(name, title) {
        ImportedPairIsLinked(st.graph, name, title);
      }
      forall i | 0 <= i < n && !Rejects(pairs[i].0, pairs[i].1)
        ensures Linked(h, Trim(pairs[i].0), Trim(pairs[i].1))
      {
        assert p[i] == pairs[i];
      }
    }
  }

  /** Running pairs that are all linked already changes no row and no edge, whatever the faults. */
  lemma {:induction false} RunOnCoveredChangesNothing(g: Graph, pairs: seq<(string, string)>, faults: seq<Fault>)
    requires Covers(g, pairs)
    ensures SameContents(Run(g, pairs, faults).graph, g)
    decreases |pairs|
  {
    if pairs != [] {
      var n := |pairs| - 1;
      var p := pairs[..n];
      assert Covers(g, p) by {
        forall i | 0 <= i < |p| && !Rejects(p[i].0, p[i].1) ensures Linked(g, Trim(p[i].0), Trim(p[i].1)) {
          assert p[i] == pairs[i];
        }
      }
      RunOnCoveredChangesNothing(g, p, faults);
      var st := Run(g, p, faults);
      if !st.aborted {
        ImportOneOnLinked(st.graph, pairs[n].0, pairs[n].1, FaultAt(faults, n));
      }
    }
  }

  /**
   * Re-running the import on the same pairs, whatever faults the second run
   * meets, leaves the people, pieces and edges exactly as the first
   * (fault-free) run left them.
   */
  lemma RerunChangesNothing(g: Graph, pairs: seq<(string, string)>, faults: seq<Fault>)
    ensures var first := Run(g, pairs, []).graph;
      SameContents(Run(first, pairs, faults).graph, first)
  {
    FaultFreeRunCovers(g, pairs);
    RunOnCoveredChangesNothing(Run(g, pairs, []).graph, pairs, faults);
  }

  // ----- Enumeration of the document -----

  /** One more participant: their pairs follow the pairs of the participants before them. */
  lemma PairsStep(ps: seq<Participant>, j: nat)
    requires j < |ps|
    ensures FlatMap(PairsOf, ps[..j + 1]) == FlatMap(PairsOf, ps[..j]) + PairsOf(ps[j])
  {
    FlatMapPrefixStep(PairsOf, ps, j);
  }

  /** One more group: its participants' pairs follow the pairs of the groups before it. */
  lemma PairsOfGroupsStep(doc: Doc, g: nat)
    requires g < |doc|
    ensures Pairs(doc[..g + 1]) == Pairs(doc[..g]) + FlatMap(PairsOf, doc[g].participants)
  {
    AllParticipantsStep(doc, g);
    FlatMapAppend(PairsOf, AllParticipants(doc[..g]), doc[g].participants);
  }

  /** The pairs met up to and including participant `j` of group `g` begin the document's pairs. */
  lemma ScannedPairsArePrefix(doc: Doc, g: nat, j: nat)
    requires g < |doc| && j < |doc[g].participants|
    ensures IsPrefix(Pairs(doc[..g]) + FlatMap(PairsOf, doc[g].participants[..j + 1]), Pairs(doc))
  {
    var ps := doc[g].participants;
    assert doc == doc[..g + 1] + doc[g + 1..];
    AllParticipantsStep(doc, g);
    FlatMapAppend(ParticipantsOf, doc[..g + 1], doc[g + 1..]);
    assert ps == ps[..j + 1] + ps[j + 1..];
    var before := AllParticipants(doc[..g]) + ps[..j + 1];
    var rest := ps[j + 1..] + AllParticipants(doc[g + 1..]);
    assert AllParticipants(doc) == before + rest;
    FlatMapAppend(PairsOf, before, rest);
    FlatMapAppend(PairsOf, AllParticipants(doc[..g]), ps[..j + 1]);
  }

  // ----- The store -----

  /** The three tables of the database and their id sequences. */
  class Database {
    var people: map<string, int>
    var peopleNext: int
    var pieces: map<string, int>
    var piecesNext: int
    var knows: set<(int, int)>

    function Model(): Graph
      reads this
    {
      Graph(Table(people, peopleNext), Table(pieces, piecesNext), knows)
    }

    predicate Valid()
      reads this
    {
      GraphValid(Model())
    }

    /** The tables as `CREATE TABLE` leaves them: empty. */
    constructor()
      ensures Model() == EmptyGraph && Valid()
    {
      people, peopleNext := map[], 1;
      pieces, piecesNext := map[], 1;
      knows := {};
    }

    /** The person upsert: insert the name unless present, then its id. */
    method UpsertPerson(name: string) returns (personId: int)
      modifies this
      ensures (Model().people, personId) == Upsert(old(Model()).people, name)
      ensures pieces == old(pieces) && piecesNext == old(piecesNext) && knows == old(knows)
    {
      if name !in people {
        people := people[name := peopleNext];
      }
      personId := people[name];
      peopleNext := peopleNext + 1;
    }

    /** The piece upsert: insert the title unless present, then its id. */
    method UpsertPiece(title: string) returns (pieceId: int)
      modifies this
      ensures (Model().pieces, pieceId) == Upsert(old(Model()).pieces, title)
      ensures people == old(people) && peopleNext == old(peopleNext) && knows == old(knows)
    {
      if title !in pieces {
        pieces := pieces[title := piecesNext];
      }
      pieceId := pieces[title];
      piecesNext := piecesNext + 1;
    }

    /** `INSERT INTO knows .. ON CONFLICT DO NOTHING`: the edge is there once afterwards. */
    method Link(personId: int, pieceId: int)
      modifies this
      ensures knows == old(knows) + {(personId, pieceId)}
      ensures people == old(people) && peopleNext == old(peopleNext)
      ensures pieces == old(pieces) && piecesNext == old(piecesNext)
    {
      if (personId, pieceId) !in knows {
        knows := knows + {(personId, pieceId)};
      }
    }

    /**
     * The body of the innermost loop for one pair: the validity check
     * (`continue`), `pool.connect()`, whose failure leaves the loops, then the
     * `try`/`catch` block, the first failing statement ending the block.
     */
    method ImportPair(name: string, title: string, fault: Fault) returns (outcome: Outcome)
      modifies this
      ensures (Model(), outcome) == ImportOne(old(Model()), name, title, fault)
    {
      if Rejects(name, title) {
        return Skipped;
      }
      if fault == ConnectFails {
        return Aborted;
      }
      outcome := Failed;
      if fault == PersonFails {
        return;
      }
      var personId := UpsertPerson(Trim(name));
      if fault == PieceFails {
        return;
      }
      var pieceId := UpsertPiece(Trim(title));
      if fault == KnowsFails {
        return;
      }
      Link(personId, pieceId);
      outcome := Imported;
    }

    /** Pair number `n` of a live run: the run over the pairs so far, extended by this pair. */
    method ImportNext(name: string, title: string, n: nat, faults: seq<Fault>, count: nat,
                      ghost g0: Graph, ghost seen: seq<(string, string)>)
      returns (outcome: Outcome)
      requires n == |seen| && Run(g0, seen, faults) == RunState(Model(), count, false)
      modifies this
      ensures Run(g0, seen + [(name, title)], faults)
        == RunState(Model(), count + (if outcome == Imported then 1 else 0), outcome == Aborted)
    {
      ghost var g := Model();
      outcome := ImportPair(name, title, FaultAt(faults, n));
      RunStep(g0, seen, (name, title), faults, g, count, Model(), outcome);
    }

    /**
     * The innermost loop of `importJson`: every piece of one participant,
     * pair number `n0 + t` meeting the oracle's fault number `n0 + t`. Leaves
     * the store and the count where the run over the participant's pairs
     * leaves them, and says whether a connection failure ended it.
     */
    method ImportRepertoire(p: Participant, n0: nat, count0: nat, faults: seq<Fault>,
                            ghost g0: Graph, ghost before: seq<(string, string)>)
      returns (importedCount: nat, aborted: bool)
      requires n0 == |before| && Run(g0, before, faults) == RunState(Model(), count0, false)
      modifies this
      ensures Run(g0, before + PairsOf(p), faults) == RunState(Model(), importedCount, aborted)
    {
      var name := p.name;
      var repertoire := p.pieces;
      importedCount := count0;
      ghost var seen := before;
      for t := 0 to |repertoire|
        invariant seen == before + PairsOf(p)[..t]
        invariant Run(g0, seen, faults) == RunState(Model(), importedCount, false)
      {
        var title := repertoire[t];
        PrefixSnoc(before, PairsOf(p), t);
        var outcome := ImportNext(name, title, n0 + t, faults, importedCount, g0, seen);
        seen := seen + [(name, title)];
        if outcome == Aborted {
          assert Run(g0, before + PairsOf(p), faults) == Run(g0, seen, faults) by {
            assert (before + PairsOf(p))[..|seen|] == seen;
            RunAfterAbort(g0, before + PairsOf(p), |seen|, faults);
          }
          return importedCount, true;
        }
        if outcome == Imported {
          importedCount := importedCount + 1;
        }
      }
      assert PairsOf(p)[..|repertoire|] == PairsOf(p);
      aborted := false;
    }

    /**
     * `importJson`: `None` is a source file that cannot be read or parsed,
     * which ends the run with exit code 1 before any statement. Otherwise the
     * three loops run over groups, participants and pieces; a connection
     * failure ends the run with exit code 1.
     */
    method ImportJson(source: Option<Doc>, faults: seq<Fault>) returns (exitCode: int, importedCount: nat)
      modifies this
      ensures old(Valid()) ==> Valid()
      ensures source == None ==> exitCode == 1 && Model() == old(Model())
      ensures source != None ==>
        var st := Run(old(Model()), Pairs(source.value), faults);
        Model() == st.graph && importedCount == st.imported && exitCode == (if st.aborted then 1 else 0)
    {
      ghost var g0 := Model();
      importedCount := 0;
      if source == None {
        exitCode := 1;
        return;
      }
      var data := source.value;
      var n := 0;
      ghost var seen: seq<(string, string)> := [];
      for g := 0 to |data|
        invariant seen == Pairs(data[..g]) && n == |seen|
        invariant Run(g0, seen, faults) == RunState(Model(), importedCount, false)
      {
        var group := data[g].participants;
        ghost var groupStart := seen;
        for j := 0 to |group|
          invariant seen == groupStart + FlatMap(PairsOf, group[..j]) && n == |seen|
          invariant Run(g0, seen, faults) == RunState(Model(), importedCount, false)
        {
          var aborted;
          importedCount, aborted := ImportRepertoire(group[j], n, importedCount, faults, g0, seen);
          PairsStep(group, j);
          AppendAssoc(groupStart, FlatMap(PairsOf, group[..j]), PairsOf(group[j]));
          seen := seen + PairsOf(group[j]);
          n := n + |group[j].pieces|;
          if aborted {
            ScannedPairsArePrefix(data, g, j);
            RunAfterAbort(g0, Pairs(data), |seen|, faults);
            if GraphValid(g0) {
              RunKeepsValid(g0, Pairs(data), faults);
            }
            exitCode := 1;
            return;
          }
        }
        assert group[..|group|] == group;
        PairsOfGroupsStep(data, g);
      }
      assert data[..|data|] == data;
      if GraphValid(g0) {
        RunKeepsValid(g0, Pairs(data), faults);
      }
      exitCode := 0;
    }
  }
}
