/**
 * The repertoire maintenance script (manage_repertoire.py): typo correction
 * through a fixed table, order-preserving de-duplication of a repertoire,
 * merging of participants that share a name inside a group, the pass that
 * cleans every group of the document in place, and adding pieces to a
 * participant.
 */
module ManageRepertoire {
  import opened Seqs
  import opened Document

  /** The typo corrections: a misspelt title and its correct form. */
  const FixMap: map<string, string> := map[
    "Жастар биы" := "Жастар биі",
    "Тепеңкөк" := "Тепең көк",
    "Әлқиса" := "Әлқисса",
    "Ерке сылқым (1,2 дауыс)" := "Ерке сылқым"
  ]

  /** `fix_map.get(piece, piece)`: the correction of a title, or the title itself. */
  function Fix(piece: string): string {
    if piece in FixMap then FixMap[piece] else piece
  }

  /** Every title of a repertoire corrected, in order. */
  function FixAll(rep: seq<string>): seq<string> {
    seq(|rep|, i requires 0 <= i < |rep| => Fix(rep[i]))
  }

  /**
   * `clean_repertoire`: every title corrected, in turn, and appended unless
   * the cleaned list already holds it.
   */
  function CleanRepertoire(rep: seq<string>): seq<string>
    decreases |rep|
  {
    if rep == [] then []
    else
      var cleaned := CleanRepertoire(rep[..|rep| - 1]);
      var piece := Fix(rep[|rep| - 1]);
      if piece in cleaned then cleaned else cleaned + [piece]
  }

  // ----- The corrections -----

  /** No corrected title is itself a misspelling: the table's values are not among its keys. */
  lemma FixValuesAreNotKeys()
    ensures forall k | k in FixMap :: FixMap[k] !in FixMap
  {
    assert FixMap.Keys == {"Жастар биы", "Тепеңкөк", "Әлқиса", "Ерке сылқым (1,2 дауыс)"};
    assert "Жастар биі"[9] != "Жастар биы"[9];
  }

  /** A corrected title needs no further correction. */
  lemma FixedIsNotKey(piece: string)
    ensures Fix(piece) !in FixMap
    ensures Fix(Fix(piece)) == Fix(piece)
  {
    FixValuesAreNotKeys();
  }

  lemma FixAllAppend(a: seq<string>, b: seq<string>)
    ensures FixAll(a + b) == FixAll(a) + FixAll(b)
  {
  }

  /** Titles that are no misspelling pass unchanged. */
  lemma FixAllOfCorrected(s: seq<string>)
    requires forall i | 0 <= i < |s| :: s[i] !in FixMap
    ensures FixAll(s) == s
  {
  }

  // ----- clean_repertoire -----

  /** Correcting one more title appends its correction. */
  lemma FixAllSnoc(rep: seq<string>)
    requires rep != []
    ensures FixAll(rep) == FixAll(rep[..|rep| - 1]) + [Fix(rep[|rep| - 1])]
  {
  }

  /** Cleaning is correcting every title, then keeping each at its first occurrence. */
  lemma {:induction false} CleanIsDedupOfCorrected(rep: seq<string>)
    ensures CleanRepertoire(rep) == Dedup(FixAll(rep))
    decreases |rep|
  {
    if rep != [] {
      var n := |rep| - 1;
      CleanIsDedupOfCorrected(rep[..n]);
      FixAllSnoc(rep);
      DedupSnoc(FixAll(rep[..n]), Fix(rep[n]));
    }
  }

  /** The cleaned repertoire holds every corrected title once, and no other title. */
  lemma CleanMembership(rep: seq<string>, x: string)
    ensures x in CleanRepertoire(rep) <==> exists i | 0 <= i < |rep| :: Fix(rep[i]) == x
  {
    CleanIsDedupOfCorrected(rep);
    var fixed := FixAll(rep);
    if x in fixed {
      var i :| 0 <= i < |fixed| && fixed[i] == x;
      assert Fix(rep[i]) == x;
    }
    if exists i | 0 <= i < |rep| :: Fix(rep[i]) == x {
      var i :| 0 <= i < |rep| && Fix(rep[i]) == x;
      assert fixed[i] == x;
    }
  }

  /** No title repeats, and the result is no longer than the input. */
  lemma CleanHasNoDuplicates(rep: seq<string>)
    ensures NoDups(CleanRepertoire(rep))
    ensures |CleanRepertoire(rep)| <= |rep|
  {
    CleanIsDedupOfCorrected(rep);
  }

  /** The titles come in the order of their first corrected occurrence in the input. */
  lemma CleanKeepsFirstOccurrenceOrder(rep: seq<string>)
    ensures forall i, j | 0 <= i < j < |CleanRepertoire(rep)| ::
      CleanRepertoire(rep)[i] in FixAll(rep) && CleanRepertoire(rep)[j] in FixAll(rep)
      && FirstIndex(FixAll(rep), CleanRepertoire(rep)[i]) < FirstIndex(FixAll(rep), CleanRepertoire(rep)[j])
  {
    CleanIsDedupOfCorrected(rep);
    DedupKeepsFirstOccurrenceOrder(FixAll(rep));
  }

  /** No misspelling survives cleaning. */
  lemma CleanHasNoMisspelling(rep: seq<string>)
    ensures forall i | 0 <= i < |CleanRepertoire(rep)| :: CleanRepertoire(rep)[i] !in FixMap
  {
    forall i | 0 <= i < |CleanRepertoire(rep)| ensures CleanRepertoire(rep)[i] !in FixMap {
      CleanMembership(rep, CleanRepertoire(rep)[i]);
      var k :| 0 <= k < |rep| && Fix(rep[k]) == CleanRepertoire(rep)[i];
      FixedIsNotKey(rep[k]);
    }
  }

  /** A cleaned repertoire is its own cleaning. */
  lemma CleanIdempotent(rep: seq<string>)
    ensures CleanRepertoire(CleanRepertoire(rep)) == CleanRepertoire(rep)
  {
    CleanIsDedupOfCorrected(rep);
    CleanIsDedupOfCorrected(CleanRepertoire(rep));
    CleanHasNoMisspelling(rep);
    FixAllOfCorrected(CleanRepertoire(rep));
    DedupOfNoDups(CleanRepertoire(rep));
  }

  /** Cleaning a prefix first changes nothing: `clean(clean(a) + b) == clean(a + b)`. */
  lemma CleanAfterClean(a: seq<string>, b: seq<string>)
    ensures CleanRepertoire(CleanRepertoire(a) + b) == CleanRepertoire(a + b)
  {
    CleanIsDedupOfCorrected(a);
    CleanIsDedupOfCorrected(CleanRepertoire(a) + b);
    CleanIsDedupOfCorrected(a + b);
    CleanHasNoMisspelling(a);
    FixAllOfCorrected(CleanRepertoire(a));
    FixAllAppend(CleanRepertoire(a), b);
    FixAllAppend(a, b);
    DedupOfDedupThenRest(FixAll(a), FixAll(b));
  }

  /** Cleaning a suffix first changes nothing: `clean(a + clean(b)) == clean(a + b)`. */
  lemma CleanBeforeClean(a: seq<string>, b: seq<string>)
    ensures CleanRepertoire(a + CleanRepertoire(b)) == CleanRepertoire(a + b)
  {
    CleanIsDedupOfCorrected(b);
    CleanIsDedupOfCorrected(a + CleanRepertoire(b));
    CleanIsDedupOfCorrected(a + b);
    CleanHasNoMisspelling(b);
    FixAllOfCorrected(CleanRepertoire(b));
    FixAllAppend(a, CleanRepertoire(b));
    FixAllAppend(a, b);
    DedupOfPrefixThenDedup(FixAll(a), FixAll(b));
  }

  // ----- clean_group -----

  /** The names of a list of participants, in order. */
  function NamesOf(ps: seq<Participant>): (r: seq<string>)
    ensures |r| == |ps| && forall i | 0 <= i < |ps| :: r[i] == ps[i].name
  {
    seq(|ps|, i requires 0 <= i < |ps| => ps[i].name)
  }

  /**
   * One participant added to the `cleaned_group` dictionary: a known name
   * keeps its place and gets the cleaned concatenation of both repertoires,
   * a new name is added at the end with its cleaned repertoire.
   */
  function Merge(acc: seq<Participant>, p: Participant): seq<Participant> {
    if p.name in NamesOf(acc) then
      var i := FirstIndex(NamesOf(acc), p.name);
      acc[i := Participant(p.name, CleanRepertoire(acc[i].pieces + p.pieces))]
    else
      acc + [Participant(p.name, CleanRepertoire(p.pieces))]
  }

  /** `clean_group`: the participants merged one after another, in dictionary order. */
  function CleanGroup(group: seq<Participant>): seq<Participant>
    decreases |group|
  {
    if group == [] then []
    else Merge(CleanGroup(group[..|group| - 1]), group[|group| - 1])
  }

  /** All the titles listed under `name` in a group, entries in order. */
  function RepertoireOf(group: seq<Participant>, name: string): seq<string>
    decreases |group|
  {
    if group == [] then []
    else
      var last := group[|group| - 1];
      RepertoireOf(group[..|group| - 1], name) + (if last.name == name then last.pieces else [])
  }

  lemma NamesOfSnoc(ps: seq<Participant>, p: Participant)
    ensures NamesOf(ps + [p]) == NamesOf(ps) + [p.name]
  {
  }

  /** A name that no entry carries has an empty repertoire. */
  lemma {:induction false} RepertoireOfAbsent(group: seq<Participant>, name: string)
    requires name !in NamesOf(group)
    ensures RepertoireOf(group, name) == []
    decreases |group|
  {
    if group != [] {
      var n := |group| - 1;
      assert NamesOf(group[..n]) == NamesOf(group)[..n];
      RepertoireOfAbsent(group[..n], name);
    }
  }

  /** Merging keeps the names in place, and adds a new name at the end. */
  lemma MergeNames(acc: seq<Participant>, p: Participant)
    ensures NamesOf(Merge(acc, p)) == if p.name in NamesOf(acc) then NamesOf(acc) else NamesOf(acc) + [p.name]
  {
    if p.name !in NamesOf(acc) {
      NamesOfSnoc(acc, Participant(p.name, CleanRepertoire(p.pieces)));
    }
  }

  /** The cleaned group lists each name of the group once, in the order of first appearance. */
  lemma {:induction false} CleanGroupNames(group: seq<Participant>)
    ensures NamesOf(CleanGroup(group)) == Dedup(NamesOf(group))
    decreases |group|
  {
    if group != [] {
      var n := |group| - 1;
      var prefix, p := group[..n], group[n];
      assert group == prefix + [p];
      CleanGroupNames(prefix);
      MergeNames(CleanGroup(prefix), p);
      NamesOfSnoc(prefix, p);
      DedupSnoc(NamesOf(prefix), p.name);
    }
  }

  /** Entry `i` of the cleaned group carries the cleaned concatenation of every repertoire under its name. */
  predicate MergedAt(group: seq<Participant>, cleaned: seq<Participant>, i: int) {
    0 <= i < |cleaned| && cleaned[i].pieces == CleanRepertoire(RepertoireOf(group, cleaned[i].name))
  }

  lemma RepertoireOfSnoc(group: seq<Participant>, p: Participant, name: string)
    ensures p.name == name ==> RepertoireOf(group + [p], name) == RepertoireOf(group, name) + p.pieces
    ensures p.name != name ==> RepertoireOf(group + [p], name) == RepertoireOf(group, name)
  {
    assert (group + [p])[..|group|] == group;
    assert RepertoireOf(group, name) + [] == RepertoireOf(group, name);
  }

  /**
   * Merging one more participant into a cleaned prefix keeps every entry
   * the cleaning of everything listed under its name.
   */
  lemma MergeKeepsMerged(prefix: seq<Participant>, acc: seq<Participant>, p: Participant)
    requires NoDups(NamesOf(acc))
    requires p.name in NamesOf(acc) <==> p.name in NamesOf(prefix)
    requires forall i | 0 <= i < |acc| :: MergedAt(prefix, acc, i)
    ensures forall i | 0 <= i < |Merge(acc, p)| :: MergedAt(prefix + [p], Merge(acc, p), i)
  {
    var r := Merge(acc, p);
    var names := NamesOf(acc);
    forall i | 0 <= i < |r| ensures MergedAt(prefix + [p], r, i) {
      var name := r[i].name;
      RepertoireOfSnoc(prefix, p, name);
      if p.name in names {
        var k := FirstIndex(names, p.name);
        assert MergedAt(prefix, acc, i);
        if i == k {
          assert name == p.name && acc[k].pieces == CleanRepertoire(RepertoireOf(prefix, p.name));
          CleanAfterClean(RepertoireOf(prefix, p.name), p.pieces);
        } else {
          assert names[i] != names[k];
          assert r[i] == acc[i] && name != p.name;
        }
      } else if i == |acc| {
        RepertoireOfAbsent(prefix, p.name);
        assert [] + p.pieces == p.pieces;
      } else {
        assert MergedAt(prefix, acc, i);
        assert r[i] == acc[i] && names[i] != p.name;
      }
    }
  }

  /**
   * A name that appears several times gets the cleaned concatenation of all
   * its repertoires, in input order.
   */
  lemma {:induction false} CleanGroupRepertoires(group: seq<Participant>)
    ensures forall i | 0 <= i < |CleanGroup(group)| :: MergedAt(group, CleanGroup(group), i)
    decreases |group|
  {
    if group != [] {
      var n := |group| - 1;
      var prefix, p := group[..n], group[n];
      CleanGroupRepertoires(prefix);
      CleanGroupNames(prefix);
      assert group == prefix + [p];
      MergeKeepsMerged(prefix, CleanGroup(prefix), p);
    }
  }

  /** A participant with a new name and a clean repertoire is appended as it is. */
  lemma MergeNew(acc: seq<Participant>, p: Participant)
    requires p.name !in NamesOf(acc) && CleanRepertoire(p.pieces) == p.pieces
    ensures Merge(acc, p) == acc + [p]
  {
  }

  /** A group whose names are distinct and whose repertoires are clean is its own cleaning. */
  lemma {:induction false} CleanGroupOfClean(ps: seq<Participant>)
    requires NoDups(NamesOf(ps))
    requires forall i | 0 <= i < |ps| :: CleanRepertoire(ps[i].pieces) == ps[i].pieces
    ensures CleanGroup(ps) == ps
    decreases |ps|
  {
    if ps != [] {
      var n := |ps| - 1;
      var prefix, p := ps[..n], ps[n];
      assert ps == prefix + [p];
      assert NoDups(NamesOf(prefix)) && p.name !in NamesOf(prefix) by {
        assert NamesOf(prefix) == NamesOf(ps)[..n];
        forall k | 0 <= k < n ensures NamesOf(prefix)[k] != p.name {
          assert NamesOf(ps)[k] != NamesOf(ps)[n];
        }
      }
      assert forall i | 0 <= i < |prefix| :: CleanRepertoire(prefix[i].pieces) == prefix[i].pieces by {
        forall i | 0 <= i < |prefix| ensures CleanRepertoire(prefix[i].pieces) == prefix[i].pieces {
          assert prefix[i] == ps[i];
        }
      }
      CleanGroupOfClean(prefix);
      MergeNew(prefix, p);
      assert CleanGroup(ps) == Merge(CleanGroup(prefix), p);
    }
  }

  /** Cleaning a cleaned group changes nothing. */
  lemma CleanGroupIdempotent(group: seq<Participant>)
    ensures CleanGroup(CleanGroup(group)) == CleanGroup(group)
  {
    var r := CleanGroup(group);
    CleanGroupNames(group);
    CleanGroupRepertoires(group);
    forall i | 0 <= i < |r| ensures CleanRepertoire(r[i].pieces) == r[i].pieces {
      assert MergedAt(group, r, i);
      CleanIdempotent(RepertoireOf(group, r[i].name));
    }
    CleanGroupOfClean(r);
  }

  // ----- The document -----

  /** Lines 42-43: every group replaced by its cleaning, the groups keeping their order. */
  function CleanDoc(doc: Doc): Doc {
    seq(|doc|, i requires 0 <= i < |doc| => Group(doc[i].name, CleanGroup(doc[i].participants)))
  }

  /** Cleaning keeps the group names, so a well-formed document stays well-formed. */
  lemma CleanDocKeepsGroupNames(doc: Doc)
    ensures GroupNames(CleanDoc(doc)) == GroupNames(doc)
  {
  }

  /** Running the clean pass twice is running it once. */
  lemma CleanDocIdempotent(doc: Doc)
    ensures CleanDoc(CleanDoc(doc)) == CleanDoc(doc)
  {
    forall i | 0 <= i < |doc| ensures CleanGroup(CleanGroup(doc[i].participants)) == CleanGroup(doc[i].participants) {
      CleanGroupIdempotent(doc[i].participants);
    }
  }

  /** Where `add_repertoire` puts a group: its present position, or a new one at the end. */
  function GroupIndex(doc: Doc, name: string): (r: nat)
    ensures r <= |doc| && (r < |doc| <==> name in GroupNames(doc))
    ensures r < |doc| ==> doc[r].name == name
  {
    if name in GroupNames(doc) then FirstIndex(GroupNames(doc), name) else |doc|
  }

  /** The participants of group `i`, or none for the group about to be created. */
  function ParticipantsAt(doc: Doc, i: nat): seq<Participant> {
    if i < |doc| then doc[i].participants else []
  }

  /**
   * `next((p for p in group if p["Есім"] == name), None)`: the position of
   * the first participant with that name, if any.
   */
  method FindParticipant(group: seq<Participant>, name: string) returns (found: Option<nat>)
    ensures found.Some? ==>
      found.value < |group| && group[found.value].name == name
      && forall k | 0 <= k < found.value :: group[k].name != name
    ensures found.None? ==> forall k | 0 <= k < |group| :: group[k].name != name
  {
    var j := 0;
    while j < |group|
      invariant j <= |group|
      invariant forall k | 0 <= k < j :: group[k].name != name
    {
      if group[j].name == name {
        return Some(j);
      }
      j := j + 1;
    }
    return None;
  }

  /** The document of the script, held in the global `data`. */
  class RepertoireFile {
    var data: Doc

    /** `json.load`: the document as read from the file. */
    constructor(loaded: Doc)
      ensures data == loaded
    {
      data := loaded;
    }

    /** Lines 42-43: every group replaced by its cleaning, one group at a time. */
    method CleanAll()
      modifies this
      ensures data == CleanDoc(old(data))
    {
      ghost var original := data;
      for g := 0 to |data|
        invariant |data| == |original|
        invariant forall k | 0 <= k < g :: data[k] == Group(original[k].name, CleanGroup(original[k].participants))
        invariant forall k | g <= k < |data| :: data[k] == original[k]
      {
        data := data[g := Group(data[g].name, CleanGroup(data[g].participants))];
      }
    }

    /**
     * `add_repertoire`: a missing group is created at the end; the first
     * participant with the name gets the cleaning of their pieces followed by
     * the cleaned new pieces; an unknown participant is appended with the
     * cleaned new pieces. No other group and no other participant changes.
     */
    method AddRepertoire(groupName: string, participantName: string, newPieces: seq<string>)
      modifies this
      ensures var gi := GroupIndex(old(data), groupName);
        |data| == (if gi < |old(data)| then |old(data)| else |old(data)| + 1)
        && data[gi].name == groupName
        && (forall k | 0 <= k < |old(data)| && k != gi :: data[k] == old(data)[k])
      ensures var gi := GroupIndex(old(data), groupName);
        var ps := ParticipantsAt(old(data), gi);
        var added := CleanRepertoire(newPieces);
        if participantName in NamesOf(ps) then
          var j := FirstIndex(NamesOf(ps), participantName);
          data[gi].participants == ps[j := Participant(participantName, CleanRepertoire(ps[j].pieces + added))]
        else
          data[gi].participants == ps + [Participant(participantName, added)]
      ensures WellFormed(old(data)) ==> WellFormed(data)
    {
      var gi: nat;
      if groupName in GroupNames(data) {
        gi := FirstIndex(GroupNames(data), groupName);
      } else {
        data := data + [Group(groupName, [])];
        gi := |data| - 1;
        assert GroupNames(data) == GroupNames(old(data)) + [groupName];
      }
      var group := data[gi].participants;
      var found := FindParticipant(group, participantName);
      var added := CleanRepertoire(newPieces);
      match found {
        case Some(j) =>
          var k := FirstIndex(NamesOf(group), participantName);
          assert j == k;
          group := group[j := Participant(group[j].name, CleanRepertoire(group[j].pieces + added))];
        case None =>
          group := group + [Participant(participantName, added)];
      }
      ghost var namesBefore := GroupNames(data);
      data := data[gi := Group(groupName, group)];
      assert GroupNames(data) == namesBefore;
      if WellFormed(old(data)) && groupName !in GroupNames(old(data)) {
        NoDupsSnoc(GroupNames(old(data)), groupName);
      }
    }
  }

  /**
   * Adding the same pieces to the same participant a second time changes
   * nothing: the participant's repertoire after one addition already holds them.
   */
  lemma RepeatedAddChangesNothing(pieces: seq<string>, newPieces: seq<string>)
    ensures var added := CleanRepertoire(newPieces);
      var once := CleanRepertoire(pieces + added);
      CleanRepertoire(once + added) == once
  {
    var added := CleanRepertoire(newPieces);
    CleanAfterClean(pieces + added, added);
    CleanIsDedupOfCorrected(pieces + added + added);
    CleanIsDedupOfCorrected(pieces + added);
    FixAllAppend(pieces + added, added);
    FixAllAppend(pieces, added);
    DedupAbsorbs(FixAll(pieces + added), FixAll(added));
  }
}
