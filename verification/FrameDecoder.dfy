/** Splitting a byte stream into frames at the earliest match of any delimiter pattern, throwing
    away frames longer than a maximum.  A pattern is what a regular expression finds first in a
    text: any function from the readable bytes to an optional match. */
module Frames {
  import opened JavaInts
  import opened Outcomes

  type Bytes = seq<bv8>

  datatype Match = Match(start: nat, end: nat)

  type Pattern = Bytes -> Option<Match>

  ghost predicate Lawful(p: Pattern) {
    forall b: Bytes :: p(b).Some? ==> p(b).value.start <= p(b).value.end <= |b|
  }

  datatype Settings = Settings(maxFrame: int, strip: bool, failFast: bool)

  /** `dropped` is the length of the frame being thrown away, as the 32-bit field shows it. */
  datatype State = State(discarding: bool, dropped: int)

  datatype Outcome = Nothing | Delivered(frame: Bytes) | TooLong(length: int)

  // ---------- the delimiter ----------

  function Hits(ps: seq<Pattern>, b: Bytes): (hits: seq<Option<Match>>)
    ensures |hits| == |ps| && forall i :: 0 <= i < |ps| ==> hits[i] == ps[i](b)
  {
    seq(|ps|, i requires 0 <= i < |ps| => ps[i](b))
  }

  /** The match the loop over the patterns is left with. */
  function Nearest(hits: seq<Option<Match>>): Option<Match> {
    if hits == [] then None
    else
      var best, found := Nearest(hits[..|hits| - 1]), hits[|hits| - 1];
      var limit := if best.Some? then best.value.start else MAX_INT;
      if found.Some? && found.value.start < limit then found else best
  }

  /** Match i starts before every match that precedes it in the list and no later than every
      match that follows it. */
  ghost predicate Wins(hits: seq<Option<Match>>, i: nat) {
    && i < |hits|
    && hits[i].Some?
    && hits[i].value.start < MAX_INT
    && (forall j :: 0 <= j < |hits| && hits[j].Some? ==> hits[i].value.start <= hits[j].value.start)
    && (forall j :: 0 <= j < i && hits[j].Some? ==> hits[i].value.start < hits[j].value.start)
  }

  /** What holds of a prefix of the matches and one more. */
  lemma WinsSnoc(hits: seq<Option<Match>>, i: nat)
    requires hits != [] && Wins(hits[..|hits| - 1], i)
    ensures var n := |hits| - 1;
            if hits[n].Some? && hits[n].value.start < hits[i].value.start then Wins(hits, n) else Wins(hits, i)
  {
    var n := |hits| - 1;
    assert forall j :: 0 <= j < n ==> hits[..n][j] == hits[j];
  }

  lemma {:induction false} NearestWins(hits: seq<Option<Match>>)
    ensures Nearest(hits).None? ==> NoneStarts(hits)
    ensures Nearest(hits).Some? ==> exists i: nat :: Wins(hits, i) && hits[i] == Nearest(hits)
    decreases |hits|
  {
    if hits != [] {
      var n := |hits| - 1;
      var front := hits[..n];
      NearestWins(front);
      hide Wins;
      if Nearest(front).Some? {
        var i: nat :| Wins(front, i) && front[i] == Nearest(front);
        WinsInside(front, i);
        WinsSnoc(hits, i);
      } else if Nearest(hits).Some? {
        FirstWins(hits);
      }
    }
  }

  lemma WinsInside(hits: seq<Option<Match>>, i: nat)
    requires Wins(hits, i)
    ensures i < |hits| && hits[i].Some? && hits[i].value.start < MAX_INT
  {
  }

  lemma FirstWins(hits: seq<Option<Match>>)
    requires hits != [] && NoneStarts(hits[..|hits| - 1])
    requires hits[|hits| - 1].Some? && hits[|hits| - 1].value.start < MAX_INT
    ensures Wins(hits, |hits| - 1)
  {
    assert forall j :: 0 <= j < |hits| - 1 ==> hits[..|hits| - 1][j] == hits[j];
  }

  /** No match starts where a buffer can have a byte. */
  ghost predicate NoneStarts(hits: seq<Option<Match>>) {
    forall i :: 0 <= i < |hits| && hits[i].Some? ==> hits[i].value.start >= MAX_INT
  }

  lemma NearestIff(hits: seq<Option<Match>>)
    ensures Nearest(hits).None? <==> NoneStarts(hits)
    ensures Nearest(hits).Some? ==> exists i: nat :: Wins(hits, i) && hits[i] == Nearest(hits)
  {
    hide Nearest;
    NearestWins(hits);
    if Nearest(hits).Some? {
      var i: nat :| Wins(hits, i) && hits[i] == Nearest(hits);
      assert !NoneStarts(hits) by {
        assert hits[i].value.start < MAX_INT;
      }
    }
  }

  function Find(ps: seq<Pattern>, b: Bytes): (found: Option<Match>)
    requires forall p :: p in ps ==> Lawful(p)
    ensures found.Some? ==> found.value.start <= found.value.end <= |b|
  {
    FindInside(ps, b);
    Nearest(Hits(ps, b))
  }

  lemma FindInside(ps: seq<Pattern>, b: Bytes)
    requires forall p :: p in ps ==> Lawful(p)
    ensures var found := Nearest(Hits(ps, b)); found.Some? ==> found.value.start <= found.value.end <= |b|
  {
    var hits := Hits(ps, b);
    NearestIff(hits);
    if Nearest(hits).Some? {
      var i: nat :| Wins(hits, i) && hits[i] == Nearest(hits);
      assert Lawful(ps[i]);
    }
  }

  // ---------- one decode call ----------

  /** New state, unread bytes and outcome of one call, when `found` is the nearest delimiter. */
  datatype Step = Step(state: State, rest: Bytes, outcome: Outcome)

  function Decode(c: Settings, s: State, b: Bytes, found: Option<Match>): Step
    requires found.Some? ==> found.value.start <= found.value.end <= |b|
  {
    match found
    case Some(m) =>
      if s.discarding then
        Step(State(false, 0), b[m.end..], if c.failFast then Nothing else TooLong(s.dropped))
      else if m.start > c.maxFrame then
        Step(s, b[m.end..], TooLong(m.start))
      else
        Step(s, b[m.end..], Delivered(if c.strip then b[..m.start] else b[..m.end]))
    case None =>
      if s.discarding then
        Step(State(true, Narrow(s.dropped + |b|)), [], Nothing)
      else if |b| > c.maxFrame then
        Step(State(true, |b|), [], if c.failFast then TooLong(|b|) else Nothing)
      else
        Step(s, b, Nothing)
  }

  // ---------- accounting ----------

  /** What became of consumed bytes.  `Closed` is the delimiter that ends a frame thrown away. */
  datatype Piece = Frame(content: Bytes, delimiter: Bytes) | Discarded(bytes: Bytes) | Closed(delimiter: Bytes)

  function PieceBytes(p: Piece): Bytes {
    match p
    case Frame(content, delimiter) => content + delimiter
    case Discarded(bytes) => bytes
    case Closed(delimiter) => delimiter
  }

  /** The pieces one call consumes, in order. */
  function Pieces(c: Settings, s: State, b: Bytes, found: Option<Match>): seq<Piece>
    requires found.Some? ==> found.value.start <= found.value.end <= |b|
  {
    match found
    case Some(m) =>
      var content, delimiter := b[..m.start], b[m.start..m.end];
      if s.discarding || m.start > c.maxFrame then [Discarded(content), Closed(delimiter)]
      else [Frame(content, delimiter)]
    case None =>
      if s.discarding || |b| > c.maxFrame then [Discarded(b)] else []
  }

  function BytesOf(pieces: seq<Piece>): Bytes {
    if pieces == [] then [] else BytesOf(pieces[..|pieces| - 1]) + PieceBytes(pieces[|pieces| - 1])
  }

  /** The frames that belong to the pieces. */
  function FramesOf(strip: bool, pieces: seq<Piece>): seq<Bytes> {
    if pieces == [] then []
    else
      FramesOf(strip, pieces[..|pieces| - 1]) + FrameOf(strip, pieces[|pieces| - 1])
  }

  function FrameOf(strip: bool, p: Piece): seq<Bytes> {
    if p.Frame? then [if strip then p.content else p.content + p.delimiter] else []
  }

  /** The bytes thrown away since the latest delimiter. */
  function DroppedNow(pieces: seq<Piece>): nat {
    if pieces == [] || !pieces[|pieces| - 1].Discarded? then 0
    else DroppedNow(pieces[..|pieces| - 1]) + |pieces[|pieces| - 1].bytes|
  }

  predicate EndsDiscarded(pieces: seq<Piece>) {
    pieces != [] && pieces[|pieces| - 1].Discarded?
  }

  /** How many frames were thrown away, the one being thrown away included. */
  function Oversized(pieces: seq<Piece>): nat {
    if pieces == [] then 0
    else
      var front := pieces[..|pieces| - 1];
      Oversized(front) + if pieces[|pieces| - 1].Discarded? && !EndsDiscarded(front) then 1 else 0
  }

  function DeliveredFrames(outcomes: seq<Outcome>): seq<Bytes> {
    if outcomes == [] then []
    else
      var o := outcomes[|outcomes| - 1];
      DeliveredFrames(outcomes[..|outcomes| - 1]) + if o.Delivered? then [o.frame] else []
  }

  function Complaints(outcomes: seq<Outcome>): nat {
    if outcomes == [] then 0
    else Complaints(outcomes[..|outcomes| - 1]) + if outcomes[|outcomes| - 1].TooLong? then 1 else 0
  }

  // ---------- runs ----------

  datatype World = World(state: State, buffer: Bytes, outcomes: seq<Outcome>, pieces: seq<Piece>)

  const START := World(State(false, 0), [], [], [])

  /** More bytes arrive and decode is called once. */
  function Feed(c: Settings, ps: seq<Pattern>, w: World, chunk: Bytes): World
    requires forall p :: p in ps ==> Lawful(p)
  {
    var b := w.buffer + chunk;
    var found := Find(ps, b);
    var step := Decode(c, w.state, b, found);
    World(step.state, step.rest, w.outcomes + [step.outcome], w.pieces + Pieces(c, w.state, b, found))
  }

  function Run(c: Settings, ps: seq<Pattern>, chunks: seq<Bytes>): World
    requires forall p :: p in ps ==> Lawful(p)
  {
    if chunks == [] then START else Feed(c, ps, Run(c, ps, chunks[..|chunks| - 1]), chunks[|chunks| - 1])
  }

  function Joined(chunks: seq<Bytes>): Bytes {
    if chunks == [] then [] else Joined(chunks[..|chunks| - 1]) + chunks[|chunks| - 1]
  }

  /** No decode call meets more bytes than a Java buffer can hold. */
  predicate Roomy(c: Settings, ps: seq<Pattern>, chunks: seq<Bytes>)
    requires forall p :: p in ps ==> Lawful(p)
  {
    chunks == [] ||
    (Roomy(c, ps, chunks[..|chunks| - 1])
     && |Run(c, ps, chunks[..|chunks| - 1]).buffer + chunks[|chunks| - 1]| <= MAX_INT)
  }

  /** What holds after any decode calls. */
  ghost predicate Sound(c: Settings, w: World) {
    && (w.state.discarding <==> EndsDiscarded(w.pieces))
    && (w.state.discarding ==> w.buffer == [] && DroppedNow(w.pieces) > c.maxFrame)
    && w.state.dropped == Narrow(DroppedNow(w.pieces))
    && DeliveredFrames(w.outcomes) == FramesOf(c.strip, w.pieces)
    && Complaints(w.outcomes) + (if w.state.discarding && !c.failFast then 1 else 0) == Oversized(w.pieces)
    && (forall p :: p in w.pieces && p.Frame? ==> |p.content| <= c.maxFrame)
  }

  lemma Snoc(pieces: seq<Piece>, p: Piece)
    ensures (pieces + [p])[..|pieces|] == pieces
    ensures BytesOf(pieces + [p]) == BytesOf(pieces) + PieceBytes(p)
    ensures forall strip :: FramesOf(strip, pieces + [p]) == FramesOf(strip, pieces) + FrameOf(strip, p)
    ensures DroppedNow(pieces + [p]) == if p.Discarded? then DroppedNow(pieces) + |p.bytes| else 0
    ensures EndsDiscarded(pieces + [p]) == p.Discarded?
    ensures Oversized(pieces + [p]) == Oversized(pieces) + if p.Discarded? && !EndsDiscarded(pieces) then 1 else 0
  {
    assert (pieces + [p])[..|pieces|] == pieces;
  }

  lemma NothingDropped(pieces: seq<Piece>)
    requires !EndsDiscarded(pieces)
    ensures DroppedNow(pieces) == 0
  {
  }

  lemma SnocOutcome(os: seq<Outcome>, o: Outcome)
    ensures DeliveredFrames(os + [o]) == DeliveredFrames(os) + if o.Delivered? then [o.frame] else []
    ensures Complaints(os + [o]) == Complaints(os) + if o.TooLong? then 1 else 0
  {
    assert (os + [o])[..|os|] == os;
  }

  lemma SnocTwo(pieces: seq<Piece>, p: Piece, q: Piece)
    ensures pieces + [p, q] == (pieces + [p]) + [q]
    ensures BytesOf(pieces + [p, q]) == BytesOf(pieces) + PieceBytes(p) + PieceBytes(q)
  {
    assert pieces + [p, q] == (pieces + [p]) + [q];
    Snoc(pieces, p);
    Snoc(pieces + [p], q);
  }

  lemma Reassociate(a: Bytes, b: Bytes, c: Bytes)
    ensures (a + b) + c == a + (b + c)
  {
  }

  lemma Regroup(a: Bytes, b: Bytes, i: nat, j: nat)
    requires i <= j <= |b|
    ensures a + b[..i] + b[i..j] + b[j..] == a + b
    ensures a + (b[..i] + b[i..j]) + b[j..] == a + b
  {
  }

  /** The pieces of one call spell out exactly what it consumed. */
  lemma PiecesConserve(c: Settings, s: State, b: Bytes, found: Option<Match>, before: seq<Piece>)
    requires found.Some? ==> found.value.start <= found.value.end <= |b|
    ensures BytesOf(before + Pieces(c, s, b, found)) + Decode(c, s, b, found).rest == BytesOf(before) + b
  {
    hide BytesOf;
    var more := Pieces(c, s, b, found);
    match found
    case Some(m) =>
      Regroup(BytesOf(before), b, m.start, m.end);
      if |more| == 2 {
        SnocTwo(before, more[0], more[1]);
      } else {
        Snoc(before, more[0]);
      }
    case None =>
      if more == [] {
        assert before + more == before;
      } else {
        Snoc(before, more[0]);
      }
  }

  /** A call that finds a delimiter ends the frame being thrown away, throws a long frame away
      at once, or delivers. */
  lemma FoundSound(c: Settings, w: World, b: Bytes, m: Match, w': World)
    requires m.start <= m.end <= |b|
    requires 0 <= c.maxFrame && Sound(c, w)
    requires var step := Decode(c, w.state, b, Some(m));
             w' == World(step.state, step.rest, w.outcomes + [step.outcome], w.pieces + Pieces(c, w.state, b, Some(m)))
    ensures Sound(c, w')
  {
    hide Narrow, BytesOf, DeliveredFrames, Complaints, FramesOf, DroppedNow, EndsDiscarded, Oversized;
    NarrowFits(0);
    if !w.state.discarding {
      NothingDropped(w.pieces);
    }
    SnocOutcome(w.outcomes, w'.outcomes[|w.outcomes|]);
    var content, delimiter := b[..m.start], b[m.start..m.end];
    if w.state.discarding || m.start > c.maxFrame {
      var p, q := Discarded(content), Closed(delimiter);
      SnocTwo(w.pieces, p, q);
      Snoc(w.pieces, p);
      Snoc(w.pieces + [p], q);
    } else {
      Snoc(w.pieces, Frame(content, delimiter));
      assert content + delimiter == b[..m.end];
    }
  }

  /** A call that finds none begins or goes on throwing away, or waits. */
  lemma NothingFoundSound(c: Settings, w: World, b: Bytes, w': World)
    requires 0 <= c.maxFrame && Sound(c, w) && |b| <= MAX_INT
    requires var step := Decode(c, w.state, b, None);
             w' == World(step.state, step.rest, w.outcomes + [step.outcome], w.pieces + Pieces(c, w.state, b, None))
    ensures Sound(c, w')
  {
    hide Narrow, BytesOf, DeliveredFrames, Complaints, FramesOf, DroppedNow, EndsDiscarded, Oversized;
    NarrowFits(0);
    NarrowFits(|b|);
    if !w.state.discarding {
      NothingDropped(w.pieces);
    }
    SnocOutcome(w.outcomes, w'.outcomes[|w.outcomes|]);
    if w'.pieces != w.pieces {
      Snoc(w.pieces, Discarded(b));
      NarrowAdd(DroppedNow(w.pieces), |b|);
    }
  }

  /** Over any sequence of decode calls: every byte that arrived is, once and in order, part of a
      delivered frame, of a delimiter, of what was discarded, or still unread. */
  lemma {:induction false} RunConserves(c: Settings, ps: seq<Pattern>, chunks: seq<Bytes>)
    requires forall p :: p in ps ==> Lawful(p)
    ensures BytesOf(Run(c, ps, chunks).pieces) + Run(c, ps, chunks).buffer == Joined(chunks)
    decreases |chunks|
  {
    if chunks != [] {
      var front := chunks[..|chunks| - 1];
      RunConserves(c, ps, front);
      hide Decode, Pieces, BytesOf, Find;
      var w, chunk := Run(c, ps, front), chunks[|chunks| - 1];
      PiecesConserve(c, w.state, w.buffer + chunk, Find(ps, w.buffer + chunk), w.pieces);
      Reassociate(BytesOf(w.pieces), w.buffer, chunk);
    }
  }

  /** Over any sequence of decode calls: the delivered frames are those of the pieces; while
      discarding the buffer is drained and the field shows, in 32 bits, the bytes dropped since
      discarding began, which exceed the maximum; each frame thrown away is complained about
      exactly once, at its start or at its end. */
  lemma {:induction false} RunSound(c: Settings, ps: seq<Pattern>, chunks: seq<Bytes>)
    requires forall p :: p in ps ==> Lawful(p)
    requires 0 <= c.maxFrame && Roomy(c, ps, chunks)
    ensures Sound(c, Run(c, ps, chunks))
    decreases |chunks|
  {
    if chunks == [] {
      NarrowFits(0);
    } else {
      var front := chunks[..|chunks| - 1];
      RunSound(c, ps, front);
      var w, chunk := Run(c, ps, front), chunks[|chunks| - 1];
      var b := w.buffer + chunk;
      match Find(ps, b)
      case Some(m) => FoundSound(c, w, b, m, Run(c, ps, chunks));
      case None => NothingFoundSound(c, w, b, Run(c, ps, chunks));
    }
  }

  /** The field is the true number of dropped bytes exactly as long as that fits in 32 bits;
      one byte more and the field is negative, so no longer above the maximum. */
  lemma DroppedIsExactIff(c: Settings, ps: seq<Pattern>, chunks: seq<Bytes>)
    requires forall p :: p in ps ==> Lawful(p)
    requires 0 <= c.maxFrame && Roomy(c, ps, chunks)
    ensures var w := Run(c, ps, chunks);
            && (w.state.dropped == DroppedNow(w.pieces) <==> DroppedNow(w.pieces) <= MAX_INT)
            && (DroppedNow(w.pieces) == MAX_INT + 1 ==> w.state.dropped < 0)
  {
    RunSound(c, ps, chunks);
    NarrowFits(DroppedNow(Run(c, ps, chunks).pieces));
    assert Narrow(MAX_INT + 1) == MIN_INT;
  }

  /** When a call complains, and of what length: where discarding starts, under fail-fast, of the
      bytes at hand; where it ends, without, of those earlier calls dropped, as 32 bits show
      them; and for a frame that is complete at once, of the bytes before its delimiter. */
  ghost predicate ComplainsRightly(c: Settings, w: World, w': World, outcome: Outcome) {
    var n := |w.pieces|;
    && n <= |w'.pieces|
    && (outcome.TooLong? <==>
          || (!w.state.discarding && w'.state.discarding && c.failFast)
          || (w.state.discarding && !w'.state.discarding && !c.failFast)
          || (!w.state.discarding && !w'.state.discarding && |w'.pieces| == n + 2))
    && (outcome.TooLong? ==>
          outcome.length ==
          if w'.state.discarding then DroppedNow(w'.pieces)
          else if w.state.discarding then Narrow(DroppedNow(w.pieces))
          else if n < |w'.pieces| then DroppedNow(w'.pieces[..n + 1])
          else 0)
  }

  lemma FoundComplains(c: Settings, w: World, b: Bytes, m: Match, w': World)
    requires m.start <= m.end <= |b| && Sound(c, w)
    requires var step := Decode(c, w.state, b, Some(m));
             w' == World(step.state, step.rest, w.outcomes + [step.outcome], w.pieces + Pieces(c, w.state, b, Some(m)))
    ensures ComplainsRightly(c, w, w', w'.outcomes[|w.outcomes|])
  {
    hide Narrow, BytesOf, DeliveredFrames, Complaints, FramesOf, DroppedNow, EndsDiscarded, Oversized;
    if !w.state.discarding {
      NothingDropped(w.pieces);
      Snoc(w.pieces, Discarded(b[..m.start]));
      if m.start > c.maxFrame {
        assert w'.pieces[..|w.pieces| + 1] == w.pieces + [Discarded(b[..m.start])];
      }
    }
  }

  lemma NothingFoundComplains(c: Settings, w: World, b: Bytes, w': World)
    requires Sound(c, w)
    requires var step := Decode(c, w.state, b, None);
             w' == World(step.state, step.rest, w.outcomes + [step.outcome], w.pieces + Pieces(c, w.state, b, None))
    ensures ComplainsRightly(c, w, w', w'.outcomes[|w.outcomes|])
  {
    hide Narrow, BytesOf, DeliveredFrames, Complaints, FramesOf, DroppedNow, EndsDiscarded, Oversized;
    if !w.state.discarding {
      NothingDropped(w.pieces);
      Snoc(w.pieces, Discarded(b));
    }
  }

  lemma {:induction false} OneOutcomeEach(c: Settings, ps: seq<Pattern>, chunks: seq<Bytes>)
    requires forall p :: p in ps ==> Lawful(p)
    ensures |Run(c, ps, chunks).outcomes| == |chunks|
    decreases |chunks|
  {
    hide Decode, Find, Pieces;
    if chunks != [] {
      OneOutcomeEach(c, ps, chunks[..|chunks| - 1]);
    }
  }

  lemma ComplaintLength(c: Settings, ps: seq<Pattern>, chunks: seq<Bytes>)
    requires forall p :: p in ps ==> Lawful(p)
    requires chunks != [] && 0 <= c.maxFrame && Roomy(c, ps, chunks)
    ensures var w, w' := Run(c, ps, chunks[..|chunks| - 1]), Run(c, ps, chunks);
            |w'.outcomes| == |chunks| && ComplainsRightly(c, w, w', w'.outcomes[|chunks| - 1])
  {
    hide Decode, Pieces, ComplainsRightly, Sound;
    var front := chunks[..|chunks| - 1];
    RunSound(c, ps, front);
    OneOutcomeEach(c, ps, chunks);
    OneOutcomeEach(c, ps, front);
    var w, b := Run(c, ps, front), Run(c, ps, front).buffer + chunks[|chunks| - 1];
    match Find(ps, b)
    case Some(m) => FoundComplains(c, w, b, m, Run(c, ps, chunks));
    case None => NothingFoundComplains(c, w, b, Run(c, ps, chunks));
  }

  /** The late complaint gives the bytes dropped by earlier calls only: it is the length of the
      whole frame exactly when the last call's delimiter is the first thing in the buffer. */
  lemma LateComplaint(c: Settings, ps: seq<Pattern>, chunks: seq<Bytes>, b: Bytes, m: Match)
    requires forall p :: p in ps ==> Lawful(p)
    requires 0 <= c.maxFrame && !c.failFast && Roomy(c, ps, chunks)
    requires m.start <= m.end <= |b|
    requires Run(c, ps, chunks).state.discarding && DroppedNow(Run(c, ps, chunks).pieces) + m.start <= MAX_INT
    ensures var w := Run(c, ps, chunks);
            var outcome := Decode(c, w.state, b, Some(m)).outcome;
            && outcome == TooLong(DroppedNow(w.pieces))
            && (outcome == TooLong(DroppedNow(w.pieces + [Discarded(b[..m.start])])) <==> m.start == 0)
  {
    RunSound(c, ps, chunks);
    var pieces := Run(c, ps, chunks).pieces;
    NarrowFits(DroppedNow(pieces));
    Snoc(pieces, Discarded(b[..m.start]));
  }

  // ---------- how long a delivered frame can be ----------

  ghost predicate FramesFit(c: Settings, ps: seq<Pattern>, chunks: seq<Bytes>)
    requires forall p :: p in ps ==> Lawful(p)
  {
    forall f :: f in DeliveredFrames(Run(c, ps, chunks).outcomes) ==> |f| <= c.maxFrame
  }

  /** The nearest delimiter of the bytes starts within the maximum and ends beyond it. */
  predicate Straddles(c: Settings, ps: seq<Pattern>, b: Bytes)
    requires forall p :: p in ps ==> Lawful(p)
  {
    var found := Find(ps, b);
    found.Some? && found.value.start <= c.maxFrame < found.value.end
  }

  ghost predicate NeverStraddles(c: Settings, ps: seq<Pattern>)
    requires forall p :: p in ps ==> Lawful(p)
  {
    forall b: Bytes :: |b| <= MAX_INT ==> !Straddles(c, ps, b)
  }

  /** No frame of any run exceeds the maximum exactly when delimiters are stripped or no
      delimiter can start within the maximum and end beyond it. */
  lemma FramesFitIff(c: Settings, ps: seq<Pattern>)
    requires forall p :: p in ps ==> Lawful(p)
    requires 0 <= c.maxFrame
    ensures (forall chunks :: Roomy(c, ps, chunks) ==> FramesFit(c, ps, chunks)) <==> c.strip || NeverStraddles(c, ps)
  {
    hide FramesFit, Straddles, Roomy;
    if c.strip || NeverStraddles(c, ps) {
      forall chunks | Roomy(c, ps, chunks)
        ensures FramesFit(c, ps, chunks)
      {
        RunFits(c, ps, chunks);
      }
    } else {
      var b: Bytes :| |b| <= MAX_INT && Straddles(c, ps, b);
      StraddlingFrameDelivered(c, ps, b);
    }
  }

  lemma {:induction false} RunFits(c: Settings, ps: seq<Pattern>, chunks: seq<Bytes>)
    requires forall p :: p in ps ==> Lawful(p)
    requires Roomy(c, ps, chunks) && (c.strip || NeverStraddles(c, ps))
    ensures FramesFit(c, ps, chunks)
    decreases |chunks|
  {
    hide Find, Straddles, Pieces;
    if chunks != [] {
      var front := chunks[..|chunks| - 1];
      RunFits(c, ps, front);
      var w := Run(c, ps, front);
      var b := w.buffer + chunks[|chunks| - 1];
      FrameFits(c, ps, w.state, b);
      SnocOutcome(w.outcomes, Decode(c, w.state, b, Find(ps, b)).outcome);
    }
  }

  lemma FrameFits(c: Settings, ps: seq<Pattern>, s: State, b: Bytes)
    requires forall p :: p in ps ==> Lawful(p)
    requires |b| <= MAX_INT && (c.strip || NeverStraddles(c, ps))
    ensures var o := Decode(c, s, b, Find(ps, b)).outcome; o.Delivered? ==> |o.frame| <= c.maxFrame
  {
    hide Find;
    assert c.strip || !Straddles(c, ps, b);
  }

  /** Such bytes, arriving first, are delivered as a frame over the maximum. */
  lemma StraddlingFrameDelivered(c: Settings, ps: seq<Pattern>, b: Bytes)
    requires forall p :: p in ps ==> Lawful(p)
    requires |b| <= MAX_INT && !c.strip && Straddles(c, ps, b)
    ensures Roomy(c, ps, [b]) && !FramesFit(c, ps, [b])
    ensures DeliveredFrames(Run(c, ps, [b]).outcomes) == [b[..Find(ps, b).value.end]]
  {
    hide Find, Pieces;
    assert [b][..0] == [] && [] + b == b;
    var outcome := Decode(c, START.state, b, Find(ps, b)).outcome;
    assert Run(c, ps, [b]) == Feed(c, ps, START, b);
    assert Run(c, ps, [b]).outcomes == [outcome];
    SnocOutcome([], outcome);
    assert [] + [outcome] == [outcome];
    assert outcome.frame in DeliveredFrames(Run(c, ps, [b]).outcomes);
  }

  // ---------- independence from how the bytes arrive ----------

  function Shift(found: Option<Match>, offset: nat): Option<Match> {
    match found
    case None => None
    case Some(m) => Some(Match(m.start + offset, m.end + offset))
  }

  ghost predicate ExtendsAt(first: Pattern, a: Bytes, b: Bytes) {
    first(a + b) == if first(a).Some? then first(a) else Shift(first(b), |a|)
  }

  /** A match is not empty, stays when more bytes arrive, and never reaches back over bytes that
      held no match: true of one-byte delimiters, not of patterns such as `10=.*`. */
  ghost predicate Incremental(first: Pattern) {
    && Lawful(first)
    && (forall a: Bytes :: first(a).Some? ==> first(a).value.start < first(a).value.end)
    && (forall a: Bytes, b: Bytes :: ExtendsAt(first, a, b))
  }

  /** The patterns together find what `first` finds. */
  ghost predicate Agrees(ps: seq<Pattern>, first: Pattern)
    requires forall p :: p in ps ==> Lawful(p)
  {
    forall b: Bytes :: |b| <= MAX_INT ==> Find(ps, b) == first(b)
  }

  /** The frames of a byte string cut at every delimiter, the too long ones and, while skipping,
      the first one left out. */
  ghost function Split(c: Settings, first: Pattern, skipping: bool, b: Bytes): seq<Bytes>
    requires Incremental(first)
    decreases |b|
  {
    match first(b)
    case None => []
    case Some(m) =>
      (if skipping || m.start > c.maxFrame then [] else [if c.strip then b[..m.start] else b[..m.end]])
      + Split(c, first, false, b[m.end..])
  }

  function FrameOfOutcome(o: Outcome): seq<Bytes> {
    if o.Delivered? then [o.frame] else []
  }

  /** One call moves at most one frame from what is to come to what was delivered. */
  lemma {:induction false} DecodeSplits(c: Settings, first: Pattern, s: State, b: Bytes, future: Bytes)
    requires Incremental(first)
    ensures var step := Decode(c, s, b, first(b));
            Split(c, first, s.discarding, b + future)
            == FrameOfOutcome(step.outcome) + Split(c, first, step.state.discarding, step.rest + future)
  {
    assert ExtendsAt(first, b, future);
    match first(b)
    case Some(m) =>
      assert (b + future)[..m.start] == b[..m.start] && (b + future)[..m.end] == b[..m.end];
      assert (b + future)[m.end..] == b[m.end..] + future;
    case None =>
      assert [] + future == future;
      SkippedSplits(c, first, b, future);
  }

  /** Bytes without a match only lengthen the frame that the next match ends. */
  lemma {:induction false} SkippedSplits(c: Settings, first: Pattern, b: Bytes, future: Bytes)
    requires Incremental(first) && first(b).None?
    ensures Split(c, first, true, b + future) == Split(c, first, true, future)
    ensures |b| > c.maxFrame ==> Split(c, first, false, b + future) == Split(c, first, true, future)
  {
    assert ExtendsAt(first, b, future);
    if first(future).Some? {
      var end := first(future).value.end;
      assert (b + future)[|b| + end..] == future[end..];
    }
  }

  lemma {:induction false} RunSplits(c: Settings, ps: seq<Pattern>, first: Pattern, chunks: seq<Bytes>, future: Bytes)
    requires forall p :: p in ps ==> Lawful(p)
    requires Incremental(first) && Agrees(ps, first) && Roomy(c, ps, chunks)
    ensures var w := Run(c, ps, chunks);
            DeliveredFrames(w.outcomes) + Split(c, first, w.state.discarding, w.buffer + future)
            == Split(c, first, false, Joined(chunks) + future)
    decreases |chunks|
  {
    hide Split, Decode, Find, Incremental, Pieces;
    if chunks == [] {
      assert [] + future == future;
    } else {
      var front, chunk := chunks[..|chunks| - 1], chunks[|chunks| - 1];
      var w := Run(c, ps, front);
      var b := w.buffer + chunk;
      RunSplits(c, ps, first, front, chunk + future);
      Reassociate(w.buffer, chunk, future);
      Reassociate(Joined(front), chunk, future);
      DecodeSplits(c, first, w.state, b, future);
      var step := Decode(c, w.state, b, first(b));
      SnocOutcome(w.outcomes, step.outcome);
      assert Find(ps, b) == first(b);
      Regroup3(DeliveredFrames(w.outcomes), FrameOfOutcome(step.outcome), Split(c, first, step.state.discarding, step.rest + future));
    }
  }

  lemma Regroup3(a: seq<Bytes>, b: seq<Bytes>, c: seq<Bytes>)
    ensures (a + b) + c == a + (b + c)
  {
  }

  /** With such delimiters, once no unread delimiter is left, the delivered frames are those of
      the whole stream, however it was cut into chunks and calls. */
  lemma ChunkingIrrelevant(c: Settings, ps: seq<Pattern>, first: Pattern, chunks: seq<Bytes>)
    requires forall p :: p in ps ==> Lawful(p)
    requires Incremental(first) && Agrees(ps, first) && Roomy(c, ps, chunks)
    ensures var w := Run(c, ps, chunks);
            && DeliveredFrames(w.outcomes) <= Split(c, first, false, Joined(chunks))
            && (first(w.buffer).None? ==> DeliveredFrames(w.outcomes) == Split(c, first, false, Joined(chunks)))
  {
    var w := Run(c, ps, chunks);
    RunSplits(c, ps, first, chunks, []);
    assert w.buffer + [] == w.buffer && Joined(chunks) + [] == Joined(chunks);
  }

  /** The pattern of a one-byte delimiter. */
  function OneByte(d: bv8): Pattern {
    (b: Bytes) => FirstByte(d, b)
  }

  function FirstByte(d: bv8, b: Bytes): Option<Match> {
    if b == [] then None
    else if b[0] == d then Some(Match(0, 1))
    else Shift(FirstByte(d, b[1..]), 1)
  }

  lemma {:induction false} FirstByteExtends(d: bv8, a: Bytes, b: Bytes)
    ensures FirstByte(d, a).Some? ==> FirstByte(d, a).value.start < FirstByte(d, a).value.end <= |a|
    ensures FirstByte(d, a + b) == if FirstByte(d, a).Some? then FirstByte(d, a) else Shift(FirstByte(d, b), |a|)
    decreases |a|
  {
    if a == [] {
      assert a + b == b;
    } else {
      assert (a + b)[1..] == a[1..] + b;
      FirstByteExtends(d, a[1..], b);
    }
  }

  lemma OneByteIsIncremental(d: bv8)
    ensures Lawful(OneByte(d)) && Incremental(OneByte(d)) && Agrees([OneByte(d)], OneByte(d))
  {
    var p := OneByte(d);
    forall a: Bytes, b: Bytes
      ensures ExtendsAt(p, a, b)
      ensures p(a).Some? ==> p(a).value.start < p(a).value.end <= |a|
    {
      FirstByteExtends(d, a, b);
    }
    forall a: Bytes
      ensures p(a).Some? ==> p(a).value.start < p(a).value.end <= |a|
    {
      FirstByteExtends(d, a, []);
    }
    forall b: Bytes | |b| <= MAX_INT
      ensures Find([p], b) == p(b)
    {
      FirstByteExtends(d, b, []);
      var hits := Hits([p], b);
      assert hits == [p(b)] && Nearest(hits[..0]) == None;
    }
  }

  lemma StraddlesIf(c: Settings, ps: seq<Pattern>, b: Bytes, m: Match)
    requires forall p :: p in ps ==> Lawful(p)
    requires Find(ps, b) == Some(m) && m.start <= c.maxFrame < m.end
    ensures Straddles(c, ps, b)
  {
  }

  lemma FindsByte(d: bv8, b: Bytes, m: Match)
    requires |b| <= MAX_INT && FirstByte(d, b) == Some(m)
    ensures Lawful(OneByte(d)) && Find([OneByte(d)], b) == Some(m)
  {
    hide Find, Incremental, Lawful, FirstByte;
    OneByteIsIncremental(d);
    assert Find([OneByte(d)], b) == OneByte(d)(b);
  }

  lemma FirstThree()
    ensures FirstByte(3, [1, 2, 3]) == Some(Match(2, 3))
  {
    var b: Bytes := [1, 2, 3];
    assert b[1..] == [2, 3] && [2, 3][1..] == [3];
  }

  /** With a one-byte delimiter left on, a frame of the maximum length is delivered too long. */
  lemma OverlongFrameDelivered()
    ensures Lawful(OneByte(3))
    ensures var c, ps := Settings(2, false, true), [OneByte(3)];
            Roomy(c, ps, [[1, 2, 3]]) && DeliveredFrames(Run(c, ps, [[1, 2, 3]]).outcomes) == [[1, 2, 3]]
  {
    hide Find, Straddles, Run, Lawful, FirstByte, DeliveredFrames, Roomy;
    FirstThree();
    FindsByte(3, [1, 2, 3], Match(2, 3));
    StraddlesIf(Settings(2, false, true), [OneByte(3)], [1, 2, 3], Match(2, 3));
    StraddlingFrameDelivered(Settings(2, false, true), [OneByte(3)], [1, 2, 3]);
    assert [1 as bv8, 2, 3][..3] == [1, 2, 3];
  }
}

/** The decoder object. */
module FrameDecoding {
  import opened JavaInts
  import opened Outcomes
  import opened Frames

  /** The readable part of a buffer; bytes before the reader index are gone. */
  class ByteBuffer {
    var readable: Bytes

    constructor ()
      ensures readable == []
    {
      readable := [];
    }

    method WriteBytes(bytes: Bytes)
      modifies this
      ensures readable == old(readable) + bytes
    {
      readable := readable + bytes;
    }

    method SkipBytes(n: nat)
      requires n <= |readable|
      modifies this
      ensures readable == old(readable)[n..]
    {
      readable := readable[n..];
    }

    method ReadSlice(n: nat) returns (slice: Bytes)
      requires n <= |readable|
      modifies this
      ensures slice == old(readable)[..n] && readable == old(readable)[n..]
    {
      slice := readable[..n];
      SkipBytes(n);
    }
  }

  class FrameDecoder {
    const patterns: seq<Pattern>
    const maxFrameLength: int
    const stripDelimiter: bool
    const failFast: bool
    var discardingTooLongFrame: bool
    var tooLongFrameLength: int

    ghost predicate Valid() {
      0 < maxFrameLength <= MAX_INT && forall p :: p in patterns ==> Lawful(p)
    }

    ghost function Config(): Settings {
      Settings(maxFrameLength, stripDelimiter, failFast)
    }

    ghost function Now(): State
      reads this
    {
      State(discardingTooLongFrame, tooLongFrameLength)
    }

    constructor (maxFrameLength: int, stripDelimiter: bool, failFast: bool, patterns: seq<Pattern>)
      requires 0 < maxFrameLength <= MAX_INT && forall p :: p in patterns ==> Lawful(p)
      ensures Valid() && Config() == Settings(maxFrameLength, stripDelimiter, failFast)
      ensures this.patterns == patterns && Now() == START.state
    {
      this.patterns := patterns;
      this.maxFrameLength := maxFrameLength;
      this.stripDelimiter := stripDelimiter;
      this.failFast := failFast;
      discardingTooLongFrame := false;
      tooLongFrameLength := 0;
    }

    /** Start and length of the delimiter that yields the shortest frame, or length -1. */
    method FindDelimiter(bytes: Bytes) returns (minFrameLength: int, minDelimLength: int)
      requires Valid()
      ensures match Find(patterns, bytes)
              case None => minDelimLength == -1
              case Some(m) => minFrameLength == m.start && minDelimLength == m.end - m.start
    {
      minFrameLength, minDelimLength := MAX_INT, -1;
      ghost var hits := Hits(patterns, bytes);
      for i := 0 to |patterns|
        invariant match Nearest(hits[..i])
                  case None => minFrameLength == MAX_INT && minDelimLength == -1
                  case Some(m) => minFrameLength == m.start && minDelimLength == m.end - m.start
      {
        assert hits[..i + 1][..i] == hits[..i];
        var frameLength := patterns[i](bytes);
        if frameLength.Some? && frameLength.value.start < minFrameLength {
          minFrameLength := frameLength.value.start;
          minDelimLength := frameLength.value.end - frameLength.value.start;
        }
      }
      assert hits[..|patterns|] == hits;
    }

    method Decode(buffer: ByteBuffer) returns (outcome: Outcome)
      requires Valid() && |buffer.readable| <= MAX_INT
      modifies this, buffer
      ensures var found := Find(patterns, old(buffer.readable));
              Step(Now(), buffer.readable, outcome) == Frames.Decode(Config(), old(Now()), old(buffer.readable), found)
    {
      var minFrameLength, minDelimLength := FindDelimiter(buffer.readable);
      if minDelimLength != -1 {
        if discardingTooLongFrame {
          discardingTooLongFrame := false;
          buffer.SkipBytes(minFrameLength + minDelimLength);
          var length := tooLongFrameLength;
          tooLongFrameLength := 0;
          return if !failFast then TooLong(length) else Nothing;
        }
        if minFrameLength > maxFrameLength {
          buffer.SkipBytes(minFrameLength + minDelimLength);
          return TooLong(minFrameLength);
        }
        var frame;
        if stripDelimiter {
          frame := buffer.ReadSlice(minFrameLength);
          buffer.SkipBytes(minDelimLength);
        } else {
          frame := buffer.ReadSlice(minFrameLength + minDelimLength);
        }
        return Delivered(frame);
      } else {
        outcome := Nothing;
        if !discardingTooLongFrame {
          if |buffer.readable| > maxFrameLength {
            tooLongFrameLength := |buffer.readable|;
            buffer.SkipBytes(|buffer.readable|);
            discardingTooLongFrame := true;
            if failFast {
              return TooLong(tooLongFrameLength);
            }
          }
        } else {
          tooLongFrameLength := Narrow(tooLongFrameLength + |buffer.readable|);
          buffer.SkipBytes(|buffer.readable|);
        }
      }
    }
  }

  /** A new decoder is called once after each chunk: it goes through the states of the run. */
  method Replay(c: Settings, patterns: seq<Pattern>, chunks: seq<Bytes>) returns (outcomes: seq<Outcome>, unread: Bytes)
    requires 0 < c.maxFrame <= MAX_INT && forall p :: p in patterns ==> Lawful(p)
    requires Roomy(c, patterns, chunks)
    ensures var w := Run(c, patterns, chunks); outcomes == w.outcomes && unread == w.buffer
  {
    hide Frames.Run, Frames.Decode, Find, Roomy, Lawful;
    var decoder := new FrameDecoder(c.maxFrame, c.strip, c.failFast, patterns);
    var buffer := new ByteBuffer();
    outcomes := [];
    RunStarts(c, patterns, chunks);
    for i := 0 to |chunks|
      invariant decoder.Valid() && decoder.Config() == c && decoder.patterns == patterns
      invariant var w := Run(c, patterns, chunks[..i]);
                w.state == decoder.Now() && w.buffer == buffer.readable && w.outcomes == outcomes
    {
      RunNext(c, patterns, chunks, i);
      buffer.WriteBytes(chunks[i]);
      var outcome := decoder.Decode(buffer);
      outcomes := outcomes + [outcome];
    }
    unread := buffer.readable;
  }

  lemma RunStarts(c: Settings, ps: seq<Pattern>, chunks: seq<Bytes>)
    requires forall p :: p in ps ==> Lawful(p)
    ensures Run(c, ps, chunks[..0]) == START && chunks[..|chunks|] == chunks
  {
  }

  lemma RunNext(c: Settings, ps: seq<Pattern>, chunks: seq<Bytes>, i: nat)
    requires forall p :: p in ps ==> Lawful(p)
    requires Roomy(c, ps, chunks) && i < |chunks|
    ensures var w := Run(c, ps, chunks[..i]);
            |w.buffer + chunks[i]| <= MAX_INT && Run(c, ps, chunks[..i + 1]) == Feed(c, ps, w, chunks[i])
  {
    hide Feed;
    RoomyPrefix(c, ps, chunks, i + 1);
    assert chunks[..i + 1][..i] == chunks[..i];
  }

  lemma {:induction false} RoomyPrefix(c: Settings, ps: seq<Pattern>, chunks: seq<Bytes>, n: nat)
    requires forall p :: p in ps ==> Lawful(p)
    requires Roomy(c, ps, chunks) && n <= |chunks|
    ensures Roomy(c, ps, chunks[..n])
    decreases |chunks|
  {
    if n < |chunks| {
      assert chunks[..|chunks| - 1][..n] == chunks[..n];
      RoomyPrefix(c, ps, chunks[..|chunks| - 1], n);
    } else {
      assert chunks[..n] == chunks;
    }
  }
}
