/**
 * The repertoire document: a JSON object from group name to a list of
 * participants, each with a name ("Есім") and a list of piece titles
 * ("Репертуар"). The document is a sequence of groups in the order in which
 * the loops enumerate the object's keys. Python enumerates keys in insertion
 * order. JavaScript's `for ... in` does the same for every key that is not an
 * array index, which no group name of this document is.
 */
module Document {
  import opened Seqs

  datatype Participant = Participant(name: string, pieces: seq<string>)

  datatype Group = Group(name: string, participants: seq<Participant>)

  type Doc = seq<Group>

  /** JSON object keys are unique. */
  predicate WellFormed(doc: Doc) {
    NoDups(GroupNames(doc))
  }

  function GroupNames(doc: Doc): (r: seq<string>)
    ensures |r| == |doc| && forall i | 0 <= i < |doc| :: r[i] == doc[i].name
  {
    seq(|doc|, i requires 0 <= i < |doc| => doc[i].name)
  }

  function ParticipantsOf(g: Group): seq<Participant> { g.participants }

  function PiecesOfParticipant(p: Participant): seq<string> { p.pieces }

  /** Every participant of every group, groups in document order. */
  function AllParticipants(doc: Doc): seq<Participant> {
    FlatMap(ParticipantsOf, doc)
  }

  /** Every piece title of the participants, in order, repetitions kept. */
  function PiecesOf(ps: seq<Participant>): seq<string> {
    FlatMap(PiecesOfParticipant, ps)
  }

  function AllTitles(doc: Doc): seq<string> {
    PiecesOf(AllParticipants(doc))
  }

  /** The groups up to and including group `g`: one more group's participants. */
  lemma AllParticipantsStep(doc: Doc, g: nat)
    requires g < |doc|
    ensures AllParticipants(doc[..g + 1]) == AllParticipants(doc[..g]) + doc[g].participants
  {
    assert doc[..g + 1] == doc[..g] + [doc[g]];
    FlatMapSnoc(ParticipantsOf, doc[..g], doc[g]);
  }

  /** Participants up to and including `j`: one more participant's pieces. */
  lemma PiecesOfStep(ps: seq<Participant>, j: nat)
    requires j < |ps|
    ensures PiecesOf(ps[..j + 1]) == PiecesOf(ps[..j]) + ps[j].pieces
  {
    assert ps[..j + 1] == ps[..j] + [ps[j]];
    FlatMapSnoc(PiecesOfParticipant, ps[..j], ps[j]);
  }
}
