/**
 The rotating file backend: messages are appended to the current file until it would outgrow the size
 limit, then the next slot of a ring of files is truncated and becomes current.

 Slots are named by their rotation index.  A slot's content is everything written to its file, flushed or not.
 */
module FileRing {

  // ---- the greedy split

  /** Adds a message to the last chunk unless that is non-empty and would outgrow `limit`. */
  function Add(limit: nat, chunks: seq<string>, m: string): (r: seq<string>)
    requires chunks != []
    ensures r != []
  {
    var last := chunks[|chunks| - 1];
    if |last| > 0 && |last| + |m| > limit then chunks + [m]
    else chunks[..|chunks| - 1] + [last + m]
  }

  /** The whole stream of messages, cut into chunks. */
  function Chunks(limit: nat, messages: seq<string>): (r: seq<string>)
    ensures r != []
  {
    if messages == [] then [""]
    else Add(limit, Chunks(limit, messages[..|messages| - 1]), messages[|messages| - 1])
  }

  function Flatten(parts: seq<string>): string {
    if parts == [] then [] else Flatten(parts[..|parts| - 1]) + parts[|parts| - 1]
  }

  lemma {:induction false} FlattenConcat(a: seq<string>, b: seq<string>)
    ensures Flatten(a + b) == Flatten(a) + Flatten(b)
    decreases |b|
  {
    if b == [] {
      assert a + b == a;
    } else {
      var front := b[..|b| - 1];
      assert (a + b)[..|a + b| - 1] == a + front;
      FlattenConcat(a, front);
    }
  }

  lemma FlattenLast(a: seq<string>, x: string)
    ensures Flatten(a + [x]) == Flatten(a) + x
  {
    assert (a + [x])[..|a|] == a;
  }

  lemma FlattenFirst(x: string, rest: seq<string>)
    ensures Flatten([x] + rest) == x + Flatten(rest)
  {
    FlattenConcat([x], rest);
    FlattenLast([], x);
    assert [] + [x] == [x];
    assert Flatten([]) + x == x;
  }

  /** Cutting loses and reorders nothing. */
  lemma {:induction false} ChunksCover(limit: nat, messages: seq<string>)
    ensures Flatten(Chunks(limit, messages)) == Flatten(messages)
    decreases |messages|
  {
    if messages == [] {
      assert [""] == [] + [""];
      FlattenLast([], "");
    } else {
      var before := messages[..|messages| - 1];
      var m := messages[|messages| - 1];
      ChunksCover(limit, before);
      var cs := Chunks(limit, before);
      var front, last := cs[..|cs| - 1], cs[|cs| - 1];
      FlattenLast(cs, m);
      FlattenLast(front, last + m);
      assert cs == front + [last];
      FlattenLast(front, last);
    }
  }

  /** A bound on the size of each message. */
  predicate Bounded(parts: seq<string>, bound: nat) {
    forall x | x in parts :: |x| <= bound
  }

  lemma {:induction false} ChunksBounded(limit: nat, messages: seq<string>, bound: nat)
    requires limit <= bound && Bounded(messages, bound)
    ensures Bounded(Chunks(limit, messages), bound)
    decreases |messages|
  {
    if messages != [] {
      var before := messages[..|messages| - 1];
      ChunksBounded(limit, before, bound);
      assert messages[|messages| - 1] in messages;
      var cs := Chunks(limit, before);
      assert cs[|cs| - 1] in cs;
    }
  }

  lemma {:induction false} FlattenBounded(parts: seq<string>, bound: nat)
    requires Bounded(parts, bound)
    ensures |Flatten(parts)| <= |parts| * bound
    decreases |parts|
  {
    if parts != [] {
      var front := parts[..|parts| - 1];
      FlattenBounded(front, bound);
      assert parts[|parts| - 1] in parts;
      assert |parts| * bound == |front| * bound + bound;
    }
  }

  // ---- slots of the ring

  function Next(i: nat, r: nat): (j: nat)
    requires i < r
    ensures j < r
  {
    if i + 1 == r then 0 else i + 1
  }

  /** The slot of chunk number `n`. */
  function SlotOf(n: nat, r: nat): (i: nat)
    requires r > 0
    ensures i < r
  {
    if n == 0 then 0 else Next(SlotOf(n - 1, r), r)
  }

  lemma {:induction false} SlotAhead(n: nat, d: nat, r: nat)
    requires 0 < r && d < r
    ensures SlotOf(n + d, r) == if SlotOf(n, r) + d < r then SlotOf(n, r) + d else SlotOf(n, r) + d - r
    decreases d
  {
    if d > 0 { SlotAhead(n, d - 1, r); }
  }

  /** The ring closes after `r` chunks, and not before. */
  lemma SlotCycle(n: nat, d: nat, r: nat)
    requires 0 < d <= r
    ensures SlotOf(n + d, r) == SlotOf(n, r) <==> d == r
  {
    if d < r { SlotAhead(n, d, r); } else { SlotAhead(n, r - 1, r); }
  }

  lemma NextIsModulo(i: nat, r: nat)
    requires i < r
    ensures (i + 1) % r == Next(i, r)
  {
  }

  function SlotText(slots: map<nat, string>, i: nat): string {
    if i in slots then slots[i] else ""
  }

  /** The chunks behind `r` empty ones, which stand for the slots no chunk has reached yet. */
  function Padded(r: nat, chunks: seq<string>): (p: seq<string>)
    ensures |p| == r + |chunks|
  {
    seq(r, i => "") + chunks
  }

  /** The last `r` entries of `p` are in their slots. */
  ghost predicate Holds(slots: map<nat, string>, r: nat, p: seq<string>)
    requires 0 < r <= |p|
  {
    forall n: nat | |p| - r <= n < |p| :: HoldsAt(slots, r, p, n)
  }

  ghost predicate HoldsAt(slots: map<nat, string>, r: nat, p: seq<string>, n: nat)
    requires 0 < r && n < |p|
  {
    SlotText(slots, SlotOf(n, r)) == p[n]
  }

  lemma HoldsExtend(slots: map<nat, string>, r: nat, p: seq<string>, m: string)
    requires 0 < r <= |p| && Holds(slots, r, p)
    ensures var k := |p| - 1;
            Holds(slots[SlotOf(k, r) := p[k] + m], r, p[..k] + [p[k] + m])
  {
    var k := |p| - 1;
    var slots' := slots[SlotOf(k, r) := p[k] + m];
    var p' := p[..k] + [p[k] + m];
    forall n: nat | |p'| - r <= n < |p'| ensures HoldsAt(slots', r, p', n) {
      assert HoldsAt(slots, r, p, n);
      if n < k { SlotCycle(n, k - n, r); }
    }
  }

  lemma HoldsRotate(slots: map<nat, string>, r: nat, p: seq<string>, m: string)
    requires 0 < r <= |p| && Holds(slots, r, p)
    ensures Holds(slots[SlotOf(|p|, r) := m], r, p + [m])
  {
    var k := |p|;
    var slots' := slots[SlotOf(k, r) := m];
    forall n: nat | k + 1 - r <= n < k + 1 ensures HoldsAt(slots', r, p + [m], n) {
      if n < k {
        assert HoldsAt(slots, r, p, n);
        SlotCycle(n, k - n, r);
      }
    }
  }

  /** Storing a message in the next slot keeps the ring when the message starts a chunk of its own. */
  lemma RotatedRing(slots: map<nat, string>, r: nat, chunks: seq<string>, m: string)
    requires r > 0 && chunks != [] && Holds(slots, r, Padded(r, chunks))
    ensures Holds(slots[SlotOf(r + |chunks|, r) := m], r, Padded(r, chunks + [m]))
  {
    HoldsRotate(slots, r, Padded(r, chunks), m);
    PaddedRotate(r, chunks, m);
  }

  /** Appending a message to the current slot keeps the ring when the message belongs to the last chunk. */
  lemma ExtendedRing(slots: map<nat, string>, r: nat, chunks: seq<string>, m: string)
    requires r > 0 && chunks != [] && Holds(slots, r, Padded(r, chunks))
    ensures var last := chunks[|chunks| - 1];
            Holds(slots[SlotOf(r + |chunks| - 1, r) := last + m], r, Padded(r, chunks[..|chunks| - 1] + [last + m]))
  {
    HoldsExtend(slots, r, Padded(r, chunks), m);
    PaddedExtend(r, chunks, chunks[|chunks| - 1] + m);
  }

  /** The current slot holds the last chunk. */
  lemma CurrentSlot(slots: map<nat, string>, r: nat, chunks: seq<string>)
    requires r > 0 && chunks != [] && Holds(slots, r, Padded(r, chunks))
    ensures SlotText(slots, SlotOf(r + |chunks| - 1, r)) == chunks[|chunks| - 1]
  {
    assert HoldsAt(slots, r, Padded(r, chunks), r + |chunks| - 1);
  }

  lemma PaddedRotate(r: nat, chunks: seq<string>, m: string)
    ensures Padded(r, chunks) + [m] == Padded(r, chunks + [m])
  {
  }

  lemma PaddedExtend(r: nat, chunks: seq<string>, text: string)
    requires chunks != []
    ensures Padded(r, chunks)[..r + |chunks| - 1] + [text] == Padded(r, chunks[..|chunks| - 1] + [text])
  {
  }

  lemma ChunksNext(limit: nat, messages: seq<string>, m: string)
    ensures Chunks(limit, messages + [m]) == Add(limit, Chunks(limit, messages), m)
  {
    assert (messages + [m])[..|messages|] == messages;
  }

  /** The backend's fields show the split `chunks`. */
  ghost predicate ShowsChunks(r: nat, slots: map<nat, string>, index: nat, written: nat, chunks: seq<string>)
    requires r > 0 && chunks != []
  {
    && Holds(slots, r, Padded(r, chunks))
    && index == SlotOf(r + |chunks| - 1, r)
    && written == |chunks[|chunks| - 1]|
  }

  /** What the backend's fields are after `messages`. */
  ghost predicate Shows(limit: nat, r: nat, slots: map<nat, string>, index: nat, written: nat, messages: seq<string>)
    requires r > 0
  {
    ShowsChunks(r, slots, index, written, Chunks(limit, messages))
  }

  lemma ShowsRotate(r: nat, slots: map<nat, string>, index: nat, written: nat, chunks: seq<string>, m: string)
    requires r > 0 && chunks != [] && ShowsChunks(r, slots, index, written, chunks)
    ensures index < r && ShowsChunks(r, slots[Next(index, r) := m], Next(index, r), |m|, chunks + [m])
  {
    RotatedRing(slots, r, chunks, m);
    assert SlotOf(r + |chunks|, r) == Next(index, r);
  }

  lemma ShowsExtend(r: nat, slots: map<nat, string>, index: nat, written: nat, chunks: seq<string>, m: string)
    requires r > 0 && chunks != [] && ShowsChunks(r, slots, index, written, chunks)
    ensures var text := SlotText(slots, index) + m;
            && ShowsChunks(r, slots[index := text], index, |text|, chunks[..|chunks| - 1] + [text])
            && SlotText(slots, index) == chunks[|chunks| - 1]
  {
    ExtendedRing(slots, r, chunks, m);
    CurrentSlot(slots, r, chunks);
  }

  /** Rotating exactly when a non-empty file would outgrow the limit keeps the fields in step with the split. */
  lemma ShowsNext(limit: nat, r: nat, slots: map<nat, string>, index: nat, written: nat, messages: seq<string>,
                  m: string)
    requires r > 0 && Shows(limit, r, slots, index, written, messages)
    ensures index < r
    ensures var rotates := written > 0 && written + |m| > limit;
            var index' := if rotates then Next(index, r) else index;
            var text := (if rotates then "" else SlotText(slots, index')) + m;
            && Shows(limit, r, slots[index' := text], index', |text|, messages + [m])
            && |text| <= (if |m| > limit then |m| else limit)
  {
    var chunks := Chunks(limit, messages);
    ChunksNext(limit, messages, m);
    if written > 0 && written + |m| > limit {
      assert "" + m == m;
      ShowsRotate(r, slots, index, written, chunks, m);
    } else {
      ShowsExtend(r, slots, index, written, chunks, m);
    }
  }

  // ---- reading the ring

  /** `count` slots read one after the other, from slot `i` on. */
  function Read(slots: map<nat, string>, r: nat, i: nat, count: nat): string
    requires i < r
    decreases count
  {
    if count == 0 then [] else SlotText(slots, i) + Read(slots, r, Next(i, r), count - 1)
  }

  /** Reading starts behind the current slot, at the oldest file, and ends with the current one. */
  function RingText(slots: map<nat, string>, r: nat, current: nat): string
    requires current < r
  {
    Read(slots, r, Next(current, r), r)
  }

  lemma {:induction false} ReadWindow(slots: map<nat, string>, r: nat, p: seq<string>, n: nat)
    requires 0 < r <= |p| && |p| - r <= n <= |p| && Holds(slots, r, p)
    ensures Read(slots, r, SlotOf(n, r), |p| - n) == Flatten(p[n..])
    decreases |p| - n
  {
    if n == |p| {
      assert p[n..] == [];
    } else {
      ReadWindow(slots, r, p, n + 1);
      assert HoldsAt(slots, r, p, n);
      assert p[n..] == [p[n]] + p[n + 1..];
      FlattenFirst(p[n], p[n + 1..]);
    }
  }

  lemma {:induction false} FlattenEmpties(n: nat)
    ensures Flatten(seq(n, i => "")) == []
  {
    if n > 0 {
      FlattenEmpties(n - 1);
      assert seq(n, i => "")[..n - 1] == seq(n - 1, i => "");
    }
  }

  function LastChunks(chunks: seq<string>, r: nat): seq<string> {
    if |chunks| <= r then chunks else chunks[|chunks| - r..]
  }

  lemma FlattenPadded(r: nat, chunks: seq<string>)
    ensures Flatten(Padded(r, chunks)[|chunks|..]) == Flatten(LastChunks(chunks, r))
  {
    var p := Padded(r, chunks);
    if |chunks| <= r {
      var blanks := seq(r - |chunks|, i => "");
      assert p[|chunks|..] == blanks + chunks;
      FlattenConcat(blanks, chunks);
      FlattenEmpties(r - |chunks|);
    } else {
      assert p[|chunks|..] == LastChunks(chunks, r);
    }
  }

  lemma LastIsSuffix(chunks: seq<string>, r: nat)
    ensures exists lost: string :: Flatten(chunks) == lost + Flatten(LastChunks(chunks, r))
  {
    var kept := LastChunks(chunks, r);
    var dropped := chunks[..|chunks| - |kept|];
    assert chunks == dropped + kept;
    FlattenConcat(dropped, kept);
  }

  /**
   The file ring refines "keep the last `r` chunks": read in ring order it is their concatenation, and so
   a contiguous suffix of everything ever exported.
   */
  lemma RingIsSuffix(slots: map<nat, string>, r: nat, limit: nat, messages: seq<string>, current: nat)
    requires r > 0 && Holds(slots, r, Padded(r, Chunks(limit, messages)))
    requires current == SlotOf(r + |Chunks(limit, messages)| - 1, r)
    ensures RingText(slots, r, current) == Flatten(LastChunks(Chunks(limit, messages), r))
    ensures exists lost: string :: Flatten(messages) == lost + RingText(slots, r, current)
  {
    var chunks := Chunks(limit, messages);
    RingIsLast(slots, r, chunks, current);
    LastIsSuffix(chunks, r);
    ChunksCover(limit, messages);
  }

  lemma RingIsLast(slots: map<nat, string>, r: nat, chunks: seq<string>, current: nat)
    requires r > 0 && chunks != [] && Holds(slots, r, Padded(r, chunks)) && current == SlotOf(r + |chunks| - 1, r)
    ensures RingText(slots, r, current) == Flatten(LastChunks(chunks, r))
  {
    SlotCycle(|chunks|, r, r);
    assert Next(current, r) == SlotOf(|chunks|, r);
    ReadWindow(slots, r, Padded(r, chunks), |chunks|);
    FlattenPadded(r, chunks);
  }

  /** All files together stay below the number of slots times the larger of limit and largest message. */
  lemma RingBounded(slots: map<nat, string>, r: nat, limit: nat, messages: seq<string>, current: nat, bound: nat)
    requires r > 0 && Holds(slots, r, Padded(r, Chunks(limit, messages)))
    requires current == SlotOf(r + |Chunks(limit, messages)| - 1, r)
    requires limit <= bound && Bounded(messages, bound)
    ensures |RingText(slots, r, current)| <= r * bound
  {
    RingIsSuffix(slots, r, limit, messages, current);
    ChunksBounded(limit, messages, bound);
    var kept := LastChunks(Chunks(limit, messages), r);
    assert Bounded(kept, bound);
    FlattenBounded(kept, bound);
    Times(|kept|, r, bound);
  }

  /** The two together, for fields that show what was exported. */
  lemma ShowsSuffix(limit: nat, r: nat, slots: map<nat, string>, index: nat, written: nat, messages: seq<string>)
    requires r > 0 && Shows(limit, r, slots, index, written, messages)
    ensures index < r && RingText(slots, r, index) == Flatten(LastChunks(Chunks(limit, messages), r))
    ensures exists lost: string :: Flatten(messages) == lost + RingText(slots, r, index)
  {
    RingIsSuffix(slots, r, limit, messages, index);
  }

  lemma ShowsBounded(limit: nat, r: nat, slots: map<nat, string>, index: nat, written: nat, messages: seq<string>,
                     bound: nat)
    requires r > 0 && Shows(limit, r, slots, index, written, messages) && limit <= bound && Bounded(messages, bound)
    ensures index < r && |RingText(slots, r, index)| <= r * bound
  {
    RingBounded(slots, r, limit, messages, index, bound);
  }

  lemma Times(a: nat, b: nat, c: nat)
    requires a <= b
    ensures a * c <= b * c
  {
  }
}
