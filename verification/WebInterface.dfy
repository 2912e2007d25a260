/** The broadcasting side of src/web_interface.c: the ring of padded messages on the C heap. */
module WebInterface {
  import opened Options
  import opened Ring

  /** What `malloc` returns; `live` until it is freed. */
  class Block {
    var data: seq<bv8>
    var live: bool

    constructor (garbage: seq<bv8>)
      ensures live && data == garbage
    {
      data, live := garbage, true;
    }

    /** `memcpy` to the address `at` bytes into the block. */
    method Copy(at: nat, bytes: seq<bv8>)
      requires live && at + |bytes| <= |data|
      modifies this`data
      ensures |data| == |old(data)| && data[at..at + |bytes|] == bytes
      ensures data[..at] == old(data)[..at] && data[at + |bytes|..] == old(data)[at + |bytes|..]
    {
      data := data[..at] + bytes + data[at + |bytes|..];
    }
  }

  /** A pointer into a block. */
  datatype Pointer = Null | At(block: Block, offset: int)

  /** `free` takes the address `malloc` gave, once. */
  method Free(p: Pointer)
    requires p.At? && p.offset == 0 && p.block.live
    modifies p.block`live
    ensures !p.block.live
  {
    p.block.live := false;
  }

  /** `len` as `broadcast_report` computes it: the size of the pointer, whatever the length of the report. */
  const PointerSize: nat := 8

  /** A report of `n` bytes at the begin of `memory`, and the message made of it: it carries the whole report and
      nothing else exactly when the report has 8 bytes.  A longer one is cut off, and a shorter one is followed by
      bytes from beyond its end. */
  lemma MessageCarries(memory: seq<bv8>, n: nat)
    requires n <= |memory| && 8 <= |memory|
    ensures PointerSize == 8
    ensures memory[..PointerSize] == memory[..n] <==> n == 8
    ensures n > 8 ==> memory[..PointerSize] == memory[..n][..8]
    ensures n < 8 ==> memory[..PointerSize] == memory[..n] + memory[n..8]
  {
    assert |memory[..n]| == n && |memory[..PointerSize]| == PointerSize;
  }

  // ---- What the ring's memory must satisfy -------------------------------------------------

  /** Every slot points past the padding of the message it holds. */
  ghost predicate Linked(ring: seq<Pointer>, held: seq<Option<nat>>, made: seq<Block>, pre: nat) {
    && |ring| == |held|
    && forall i :: 0 <= i < |ring| ==> Slot(ring[i], held[i], made, pre)
  }

  ghost predicate Slot(p: Pointer, h: Option<nat>, made: seq<Block>, pre: nat) {
    match h
    case None => p == Null
    case Some(id) => id < |made| && p == At(made[id], pre)
  }

  ghost predicate Distinct(made: seq<Block>) {
    forall i, j :: 0 <= i < j < |made| ==> made[i] != made[j]
  }

  /** A message is alive until it is freed. */
  ghost predicate Alive(made: seq<Block>, freed: seq<nat>)
    reads made`live
  {
    forall id: nat :: id < |made| ==> (made[id].live <==> Count<nat>(freed, id) == 0)
  }

  /** Every message carries its bytes between the paddings, freed or not. */
  ghost predicate Intact(made: seq<Block>, texts: seq<seq<bv8>>, pre: nat, post: nat)
    reads made`data
  {
    && |texts| == |made|
    && forall id :: 0 <= id < |made| ==> Carries(made[id], texts[id], pre, post)
  }

  ghost predicate Carries(b: Block, text: seq<bv8>, pre: nat, post: nat)
    reads b`data
  {
    |b.data| == pre + |text| + post && b.data[pre..pre + |text|] == text
  }

  lemma HeldIsLive(s: State, made: seq<Block>, i: nat)
    requires i < |s.slots| && s.slots[i].Some? && s.slots[i].value < |made| == s.made
    requires Accounted(s) && Alive(made, s.freed)
    ensures made[s.slots[i].value].live
  {
    var id := s.slots[i].value;
    assert AccountedOnce(s, id);
    assert s.slots[i] == Some(id);
    CountPositive(s.slots, Some(id));
  }

  /** A new message in slot `i`. */
  lemma Stored(ring: seq<Pointer>, held: seq<Option<nat>>, made: seq<Block>, pre: nat, i: nat, b: Block)
    requires Linked(ring, held, made, pre) && i < |ring|
    ensures Linked(ring[i := At(b, pre)], held[i := Some(|made|)], made + [b], pre)
  {
    forall x {:trigger held[x]} | 0 <= x < |ring|
      ensures Slot(ring[i := At(b, pre)][x], held[i := Some(|made|)][x], made + [b], pre)
    {
      var was := ring[x];
      assert Slot(was, held[x], made, pre);
    }
  }

  lemma OneMore(made: seq<Block>, texts: seq<seq<bv8>>, freed: seq<nat>, b: Block, text: seq<bv8>, pre: nat, post: nat)
    requires Distinct(made) && Alive(made, freed) && Intact(made, texts, pre, post)
    requires b !in made && b.live && Count<nat>(freed, |made|) == 0 && Carries(b, text, pre, post)
    ensures Distinct(made + [b]) && Alive(made + [b], freed) && Intact(made + [b], texts + [text], pre, post)
  {
  }

  /** Everything about the memory of the ring. */
  ghost predicate Sound(b: Broadcaster)
    reads b, b.ring, b.made
  {
    && b.ring.Length == 10 && Linked(b.ring[..], b.held, b.made, b.pre)
    && Distinct(b.made) && Alive(b.made, b.freed) && Intact(b.made, b.texts, b.pre, b.post)
  }

  class Broadcaster {
    /** The padding that the websocket library asks for around a message. */
    const pre: nat
    const post: nat
    const ring: array<Pointer>
    var current: nat

    /** The messages generated so far, oldest first, and the bytes they carry. */
    ghost var made: seq<Block>
    ghost var texts: seq<seq<bv8>>
    /** The message that each slot points to. */
    ghost var held: seq<Option<nat>>
    ghost var freed: seq<nat>

    ghost function Abs(): State
      reads this
    {
      State(held, current, |made|, freed)
    }

    ghost predicate Valid()
      reads this, ring, made
    {
      |held| == 10 && current < 10 && Sound(this) && Accounted(Abs())
    }

    constructor (pre: nat, post: nat)
      ensures Valid() && fresh(ring) && Abs() == Run([]) && texts == []
    {
      this.pre, this.post := pre, post;
      ring := new Pointer[10](_ => Null);
      current, made, texts, held, freed := 0, [], [], Empty(), [];
      new;
      forall id: nat ensures AccountedOnce(Abs(), id) { RunAccounts([], id); }
    }

    /** `generate_lws_padded_msg`. */
    method GeneratePadded(msg: seq<bv8>, len: nat) returns (p: Pointer)
      requires len <= |msg|
      ensures p.At? && fresh(p.block) && p.block.live && p.offset == pre
      ensures Carries(p.block, msg[..len], pre, post)
    {
      var buf := new Block(seq(pre + len + post, _ => 0));
      buf.Copy(pre, msg[..len]);
      p := At(buf, pre);
    }

    /** `free_lws_padded_msg`: the block starts before the padding. */
    method FreePadded(p: Pointer)
      requires p.At? ==> p.offset == pre && p.block.live
      modifies (if p.At? then {p.block} else {})`live
      ensures p.At? ==> !p.block.live
    {
      if p != Null {
        var origin := At(p.block, p.offset - pre);
        Free(origin);
      }
    }

    /** Frees the message of a slot, if there is one; the slot still points to it. */
    method FreeSlot(i: nat)
      requires Valid() && i < 10
      modifies this`freed, made`live
      ensures Sound(this) && freed == old(freed) + Gone(held[i])
    {
      assert Slot(ring[..][i], held[i], made, pre);
      if ring[i] != Null {
        ghost var id := held[i].value;
        HeldIsLive(Abs(), made, i);
        FreePadded(ring[i]);
        forall x: nat ensures Count<nat>(freed + Gone(held[i]), x) == Count<nat>(freed, x) + if x == id then 1 else 0 {
          CountConcat(freed, Gone(held[i]), x);
          CountGone(held[i], x);
        }
      } else {
        assert freed + Gone(held[i]) == freed;
      }
      freed := freed + Gone(held[i]);
    }

    /** The new message takes its slot, which becomes the current one. */
    method Store(i: nat, p: Pointer, ghost text: seq<bv8>)
      requires Sound(this) && i < 10 && Count<nat>(freed, |made|) == 0
      requires p.At? && p.offset == pre && p.block !in made && p.block.live && Carries(p.block, text, pre, post)
      modifies this`current, this`held, this`made, this`texts, ring
      ensures Sound(this)
      ensures held == old(held[i := Some(|made|)]) && current == i
      ensures made == old(made) + [p.block] && texts == old(texts) + [text]
    {
      ghost var was := ring[..];
      Stored(was, held, made, pre, i, p.block);
      OneMore(made, texts, freed, p.block, text, pre, post);
      assert i < |held|;
      hide Linked, Distinct, Alive, Intact, Carries, Count;
      ring[i] := p;
      current := i;
      held, made, texts := held[i := Some(|made|)], made + [p.block], texts + [text];
      assert ring[..] == was[i := p];
    }

    /** `broadcast_report`: `memory` is what can be read from the address of the serialized report on.  The report's
        own length plays no part. */
    method BroadcastReport(memory: seq<bv8>)
      requires Valid() && |memory| >= PointerSize
      modifies this, ring, made`live
      ensures Valid() && Abs() == Broadcasted(old(Abs()))
      ensures |made| == |old(made)| + 1 && made[..|old(made)|] == old(made) && fresh(made[|old(made)|])
      ensures texts == old(texts) + [memory[..PointerSize]]
    {
      hide Accounted, Count, Carries, Sound, Gone;
      ghost var s := Abs();
      StepsAccount(s);
      NewestIsAlive(s);
      var buf := GeneratePadded(memory, PointerSize);
      var next := (current + 1) % 10;
      FreeSlot(next);
      Store(next, buf, memory[..PointerSize]);
      assert Abs() == Broadcasted(s);
    }

    /** The body of the loop in `cleanup_ringbuffer`. */
    method ReleaseSlot(i: nat)
      requires Valid() && i < 10
      modifies this`held, this`freed, ring, made`live
      ensures Valid() && Abs() == Released(old(Abs()), i)
    {
      hide Accounted, Count, Carries, Distinct, Alive, Intact, Gone;
      ghost var s := Abs();
      ReleaseStep(s, i);
      FreeSlot(i);
      ring[i] := Null;
      held := held[i := None];
      assert Abs() == Released(s, i);
    }

    /** `cleanup_ringbuffer`. */
    method CleanupRing()
      requires Valid()
      modifies this, ring, made`live
      ensures Valid() && Abs() == Cleaned(old(Abs()))
      ensures made == old(made) && texts == old(texts)
    {
      hide Accounted, Linked, Distinct, Alive, Intact, Gone, Released, Cleaned;
      for i := 0 to 10
        invariant Valid() && Abs() == ReleasedTo(old(Abs()), i)
        invariant made == old(made) && texts == old(texts)
      {
        ReleaseSlot(i);
      }
      ReleasedAll(old(Abs()));
      current := 0;
      StepsAccount(old(Abs()));
    }
  }
}
