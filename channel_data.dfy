/**
 * The edge source the decoder reads: the analyzer SDK's AnalyzerChannelData. Its body
 * is not part of this model; what the decoder relies on is stated here over a
 * captured channel, given as the strictly increasing samples at which the line
 * changes level and the level at sample 0. After the last edge the line keeps its
 * level. A cursor is a sample position together with the index of the first edge
 * after it.
 *
 * Assumptions about the SDK calls, since their bodies are not visible:
 * - an edge at sample k means the new level holds from sample k on;
 * - WouldAdvancingCauseTransition(n) holds iff the next edge is at most n samples ahead;
 * - AdvanceToNextEdge and GetSampleOfNextEdge need an edge ahead; with none left the
 *   SDK call waits for more data, which is where a decoding run over a finished
 *   capture ends.
 */
module ChannelData {
  import opened Helpers

  datatype Channel = Channel(edges: seq<nat>, initialLevel: BitState)

  /** Edge i, if there is one, comes before edge j, if there is one. */
  predicate EdgesOrdered(edges: seq<nat>, i: int, j: int)
  {
    0 <= i < j < |edges| ==> edges[i] < edges[j]
  }

  /** Edges strictly increasing, none at sample 0 (the initial level holds there). The
      order is stated through EdgesOrdered, so that it is used only where a proof asks
      for it (EdgeOrder). */
  predicate WellFormed(ch: Channel)
  {
    && (forall i, j | 0 <= i < j < |ch.edges| :: EdgesOrdered(ch.edges, i, j))
    && (|ch.edges| > 0 ==> ch.edges[0] > 0)
  }

  lemma EdgeOrder(ch: Channel, i: int, j: int)
    requires WellFormed(ch)
    ensures 0 <= i < j < |ch.edges| ==> ch.edges[i] < ch.edges[j]
  {
    assert EdgesOrdered(ch.edges, i, j);
  }

  datatype Cursor = Cursor(pos: nat, next: nat)

  /** `next` is the index of the first edge strictly after `pos`. */
  predicate CursorValid(ch: Channel, c: Cursor)
  {
    && c.next <= |ch.edges|
    && (c.next > 0 ==> ch.edges[c.next - 1] <= c.pos)
    && (c.next < |ch.edges| ==> c.pos < ch.edges[c.next])
  }

  function Start(ch: Channel): Cursor
  {
    Cursor(0, 0)
  }

  /** GetBitState: the initial level, flipped once per edge already passed. */
  function Level(ch: Channel, c: Cursor): BitState
  {
    if c.next % 2 == 0 then ch.initialLevel else Flip(ch.initialLevel)
  }

  predicate HasNextEdge(ch: Channel, c: Cursor)
  {
    c.next < |ch.edges|
  }

  /** GetSampleOfNextEdge. */
  function NextEdge(ch: Channel, c: Cursor): nat
    requires HasNextEdge(ch, c)
  {
    ch.edges[c.next]
  }

  /** Edges not yet passed: the measure every decoding loop decreases. */
  function Remaining(ch: Channel, c: Cursor): nat
    requires CursorValid(ch, c)
  {
    |ch.edges| - c.next
  }

  /** AdvanceToNextEdge: onto the next edge, which flips the level. */
  function NextEdgeCursor(ch: Channel, c: Cursor): (r: Cursor)
    requires WellFormed(ch) && CursorValid(ch, c) && HasNextEdge(ch, c)
    ensures CursorValid(ch, r)
    ensures r.pos > c.pos && r.next == c.next + 1
    ensures Level(ch, r) == Flip(Level(ch, c))
  {
    EdgeOrder(ch, c.next, c.next + 1);
    Cursor(ch.edges[c.next], c.next + 1)
  }

  /** WouldAdvancingCauseTransition(n). */
  predicate TransitionWithin(ch: Channel, c: Cursor, n: nat)
  {
    HasNextEdge(ch, c) && ch.edges[c.next] <= c.pos + n
  }

  /** The index of the first edge at or after index i that lies strictly after p. */
  function SkipEdges(edges: seq<nat>, i: nat, p: nat): (r: nat)
    requires i <= |edges|
    ensures i <= r <= |edges|
    ensures r > i ==> edges[r - 1] <= p
    ensures r < |edges| ==> edges[r] > p
    decreases |edges| - i
  {
    if i < |edges| && edges[i] <= p then SkipEdges(edges, i + 1, p) else i
  }

  /** Advance(n): n samples on, past every edge up to the new position. */
  function AdvancedBy(ch: Channel, c: Cursor, n: nat): (r: Cursor)
    requires CursorValid(ch, c)
    ensures CursorValid(ch, r) && r.pos == c.pos + n && r.next >= c.next
    ensures !TransitionWithin(ch, c, n) ==> r.next == c.next
  {
    Cursor(c.pos + n, SkipEdges(ch.edges, c.next, c.pos + n))
  }

  /** AdvanceToAbsPosition(p), which only moves forward. */
  function AdvancedTo(ch: Channel, c: Cursor, p: nat): (r: Cursor)
    requires CursorValid(ch, c) && p >= c.pos
    ensures CursorValid(ch, r) && r.pos == p
  {
    AdvancedBy(ch, c, p - c.pos)
  }

  /** On a well-formed channel a cursor is determined by its position: `next` counts the
      edges at or before it, so the level it reports is the level of the line there. */
  lemma {:induction false} CursorDeterminedByPosition(ch: Channel, c: Cursor, d: Cursor)
    requires WellFormed(ch) && CursorValid(ch, c) && CursorValid(ch, d) && c.pos == d.pos
    ensures c == d
  {
    EdgeOrder(ch, c.next, d.next - 1);
    EdgeOrder(ch, d.next, c.next - 1);
  }

  /** The SDK's AnalyzerChannelData: a cursor over one captured channel. */
  class AnalyzerChannelData {
    const channel: Channel
    var position: nat
    var nextEdge: nat

    ghost predicate Valid()
      reads this
    {
      WellFormed(channel) && CursorValid(channel, Cursor(position, nextEdge))
    }

    function State(): Cursor
      reads this
    {
      Cursor(position, nextEdge)
    }

    constructor (ch: Channel)
      requires WellFormed(ch)
      ensures Valid() && channel == ch && State() == Start(ch)
    {
      channel := ch;
      position := 0;
      nextEdge := 0;
    }

    function GetBitState(): BitState
      reads this
    {
      Level(channel, State())
    }

    function GetSampleNumber(): nat
      reads this
    {
      position
    }

    /** Whether an edge is left (GetSampleOfNextEdge and AdvanceToNextEdge need one). */
    predicate HasNextEdge()
      reads this
    {
      nextEdge < |channel.edges|
    }

    function GetSampleOfNextEdge(): nat
      requires HasNextEdge()
      reads this
    {
      channel.edges[nextEdge]
    }

    predicate WouldAdvancingCauseTransition(n: nat)
      reads this
    {
      TransitionWithin(channel, State(), n)
    }

    method AdvanceToNextEdge()
      requires Valid() && HasNextEdge()
      modifies this
      ensures Valid() && State() == NextEdgeCursor(channel, old(State()))
    {
      EdgeOrder(channel, nextEdge, nextEdge + 1);
      position := channel.edges[nextEdge];
      nextEdge := nextEdge + 1;
    }

    method Advance(n: nat)
      requires Valid()
      modifies this
      ensures Valid() && State() == AdvancedBy(channel, old(State()), n)
    {
      var target := position + n;
      ghost var skipped := SkipEdges(channel.edges, nextEdge, target);
      while nextEdge < |channel.edges| && channel.edges[nextEdge] <= target
        invariant nextEdge <= |channel.edges|
        invariant SkipEdges(channel.edges, nextEdge, target) == skipped
        decreases |channel.edges| - nextEdge
      {
        nextEdge := nextEdge + 1;
      }
      position := target;
    }

    method AdvanceToAbsPosition(p: nat)
      requires Valid() && p >= position
      modifies this
      ensures Valid() && State() == AdvancedTo(channel, old(State()), p)
      ensures p == old(position) ==> State() == old(State())
      ensures old(HasNextEdge()) && p == old(GetSampleOfNextEdge()) ==> State() == NextEdgeCursor(channel, old(State()))
    {
      ghost var c := State();
      Advance(p - position);
      if p == c.pos {
        CursorDeterminedByPosition(channel, State(), c);
      } else if c.next < |channel.edges| && p == channel.edges[c.next] {
        CursorDeterminedByPosition(channel, State(), NextEdgeCursor(channel, c));
      }
    }
  }
}
