/** The ring-buffer FIFO between a producer and a consumer channel. */
module Fifo {

  /** Where the thread waits. */
  datatype Place =
    | Top        // at the head of the loop
    | Offered    // after offering a word out of a full buffer; the word coming in is not read yet
    | Writing    // in a blocking write of a word

  /** What happens next: the producer offers a word, the consumer takes one, or the thread runs to its next wait. */
  datatype Move = Produce(word: int) | Consume | Thread

  /** Index of the place k after i in a ring of n. */
  function At(i: nat, k: nat, n: nat): nat
    requires i < n && k <= n
  {
    if i + k < n then i + k else i + k - n
  }

  lemma Wrap(i: nat, n: nat)
    requires i < n
    ensures (i + 1) % n == At(i, 1, n)
  {
  }

  /** The count words from the head on. */
  ghost function RingOf(b: seq<int>, head: nat, count: nat): (r: seq<int>)
    requires count <= |b| && head < |b|
    ensures |r| == count
  {
    seq(count, k requires 0 <= k < count => b[At(head, k, |b|)])
  }

  lemma RingStore(b: seq<int>, head: nat, count: nat, word: int)
    requires count < |b| && head < |b|
    ensures RingOf(b[At(head, count, |b|) := word], head, count + 1) == RingOf(b, head, count) + [word]
  {
  }

  lemma RingOffer(b: seq<int>, head: nat, count: nat)
    requires 0 < count <= |b| && head < |b|
    ensures [b[head]] + RingOf(b, At(head, 1, |b|), count - 1) == RingOf(b, head, count)
    ensures At(At(head, 1, |b|), count - 1, |b|) == At(head, count, |b|)
  {
    var r := RingOf(b, head, count);
    assert r[0] == b[head];
    var t := RingOf(b, At(head, 1, |b|), count - 1);
    forall k | 0 <= k < |t| ensures t[k] == r[k + 1] {}
  }

  lemma Accept(d: seq<int>, p: seq<int>, r: seq<int>, a: seq<int>, word: int)
    requires d + p + r == [0] + a
    ensures d + p + (r + [word]) == [0] + (a + [word])
  {
    assert d + p + (r + [word]) == (d + p + r) + [word];
    assert [0] + (a + [word]) == ([0] + a) + [word];
  }

  lemma MoveOut(d: seq<int>, word: int, r: seq<int>, a: seq<int>)
    requires d + [] + ([word] + r) == [0] + a
    ensures d + [word] + r == [0] + a
  {
    assert d + [] + ([word] + r) == d + [word] + r;
  }

  lemma TakeOut(d: seq<int>, word: int, r: seq<int>, a: seq<int>)
    requires d + [word] + r == [0] + a
    ensures (d + [word]) + [] + r == [0] + a
  {
    assert (d + [word]) + [] + r == d + [word] + r;
  }

  class Fifo {
    const buffer: array<int>
    var head: nat
    var tail: nat
    var is_full: bool
    var is_empty: bool
    var place: Place
    var offered: bool          // the producer channel holds a word that is not read
    var offer: int
    var pending: bool          // the consumer channel holds a word that is not taken
    var output: int
    ghost var count: nat
    ghost var accepted: seq<int>
    ghost var delivered: seq<int>

    /** After reset the word 0 is on the output. */
    constructor (n: nat)
      requires n >= 1
      ensures Valid() && buffer.Length == n && fresh(buffer) && accepted == [] && delivered == [] && count == 0
    {
      buffer := new int[n];
      head, tail, is_full, is_empty := 0, 0, false, true;
      place, offered, offer, pending, output := Top, false, 0, true, 0;
      count, accepted, delivered := 0, [], [];
      new;
      assert Ring() == [];
    }

    /** The words stored, from the head. */
    ghost function Ring(): seq<int>
      requires count <= buffer.Length && head < buffer.Length
      reads this`count, this`head, buffer
    {
      RingOf(buffer[..], head, count)
    }

    /** The word on the output that the consumer has not taken. */
    ghost function Pending(): seq<int>
      reads this`pending, this`output
    {
      if pending then [output] else []
    }

    /** Head, tail and flags agree with the count; while the thread is between giving and taking a word the flags lag. */
    ghost predicate FlagsOk()
      requires buffer.Length > 0
      reads this`count, this`head, this`tail, this`is_full, this`is_empty, this`place, this`offered
    {
      && count <= buffer.Length && head < buffer.Length && tail == At(head, count, buffer.Length)
      && if place == Offered then is_full && !is_empty && count == buffer.Length - 1 && offered
         else (is_full <==> count == buffer.Length) && (is_empty <==> count == 0)
    }

    /** Nothing is lost, doubled or reordered: the words out and waiting are the reset word and the words accepted. */
    ghost predicate Valid()
      reads this, buffer
    {
      && buffer.Length > 0 && FlagsOk()
      && delivered + Pending() + Ring() == [0] + accepted
    }

    /** The producer offers a word when its last one was read. */
    method Produce(word: int)
      requires Valid() && !offered
      modifies this`offered, this`offer
      ensures Valid() && offered && offer == word
    {
      offered, offer := true, word;
    }

    /** The consumer takes the word on the output. */
    method Consume() returns (word: int)
      requires Valid() && pending
      modifies this`pending, this`delivered
      ensures Valid() && !pending && word == old(output) && delivered == old(delivered) + [word]
    {
      word := output;
      TakeOut(delivered, word, Ring(), accepted);
      pending := false;
      delivered := delivered + [word];
    }

    /** Reads the offered word and stores it at the tail. */
    method Store()
      requires buffer.Length > 0 && count < buffer.Length && head < buffer.Length && tail == At(head, count, buffer.Length)
      modifies this`offered, this`tail, this`accepted, this`count, buffer
      ensures !offered && count == old(count) + 1 && tail == At(head, count, buffer.Length)
      ensures accepted == old(accepted) + [offer] && Ring() == old(Ring()) + [offer]
    {
      Wrap(tail, buffer.Length);
      RingStore(buffer[..], head, count, offer);
      ghost var b := buffer[..];
      buffer[tail] := offer;
      tail := (tail + 1) % buffer.Length;
      offered := false;
      accepted := accepted + [offer];
      count := count + 1;
      assert buffer[..] == b[At(head, count - 1, buffer.Length) := offer];
    }

    /** Takes the word at the head and puts it on the output. */
    method Offer()
      requires buffer.Length > 0 && 0 < count <= buffer.Length && head < buffer.Length && !pending
      requires tail == At(head, count, buffer.Length)
      modifies this`pending, this`output, this`head, this`count
      ensures pending && count == old(count) - 1 && head < buffer.Length && tail == At(head, count, buffer.Length)
      ensures [output] + Ring() == old(Ring())
    {
      Wrap(head, buffer.Length);
      RingOffer(buffer[..], head, count);
      output := buffer[head];
      pending := true;
      head := (head + 1) % buffer.Length;
      count := count - 1;
    }

    /** The thread from the head of the loop to its next wait. */
    method Loop()
      requires Valid() && place == Top
      modifies this, buffer
      ensures Valid()
      ensures delivered == old(delivered)
      ensures accepted == if old(offered) && !old(is_full) then old(accepted) + [offer] else old(accepted)
      ensures if old(pending) then pending && output == old(output) else pending <==> old(count) > 0 || old(offered)
      ensures offer == old(offer) && (offered <==> old(offered) && old(is_full))
      ensures place == if old(pending) || old(count) == 0 then Top else if old(offered) && old(is_full) then Offered else Writing
      ensures count == old(count) + (if old(offered) && !old(is_full) then 1 else 0) - (if !old(pending) && pending then 1 else 0)
    {
      var can_read, can_write := offered, !pending;
      Accept(delivered, Pending(), Ring(), accepted, offer);
      if can_read && can_write && !is_full && !is_empty {
        Store();
        Offer();
        MoveOut(delivered, output, Ring(), accepted);
        place := Writing;
      } else if can_read && can_write && is_full && !is_empty {
        Offer();
        MoveOut(delivered, output, Ring(), accepted);
        place := Offered;
      } else if can_read && can_write && !is_full && is_empty {
        MoveOut(delivered, offer, Ring(), accepted + [offer]);
        accepted := accepted + [offer];
        offered := false;
        output, pending := offer, true;
      } else if can_read && !is_full {
        Store();
        if tail == head {
          is_full := true;
        }
        is_empty := false;
      } else if can_write && !is_empty {
        Offer();
        MoveOut(delivered, output, Ring(), accepted);
        if tail == head {
          is_empty := true;
        }
        is_full := false;
        place := Writing;
      }
    }

    /** The thread after its offer out of a full buffer: stores the word coming in. */
    method AfterOffer()
      requires Valid() && place == Offered
      modifies this, buffer
      ensures Valid() && place == Top && delivered == old(delivered) && pending == old(pending) && output == old(output)
      ensures accepted == old(accepted) + [old(offer)] && !offered && count == old(count) + 1
    {
      Accept(delivered, Pending(), Ring(), accepted, offer);
      Store();
      place := Top;
    }

    /** The thread after its blocking write, once the consumer took the word. */
    method AfterWrite()
      requires Valid() && place == Writing && !pending
      modifies this`place
      ensures Valid() && place == Top
    {
      place := Top;
    }

    /** The thread cannot run while the consumer has not taken the word of a blocking write. */
    predicate CanMove(m: Move)
      reads this
    {
      match m
      case Produce(_) => !offered
      case Consume => pending
      case Thread => place == Writing ==> !pending
    }

    /** One move; a move that cannot happen is passed over. */
    method Do(m: Move)
      requires Valid()
      modifies this, buffer
      ensures Valid() && old(accepted) <= accepted && old(delivered) <= delivered
      ensures !old(CanMove(m)) || m.Produce? || m.Consume? ==> place == old(place) && count == old(count) && accepted == old(accepted)
      ensures !old(CanMove(m)) || m.Consume? ==> offered == old(offered) && offer == old(offer)
      ensures !old(CanMove(m)) || m.Produce? ==> pending == old(pending) && delivered == old(delivered)
      ensures m.Consume? ==> !pending && (old(pending) ==> delivered == old(delivered) + [old(output)])
      ensures m.Thread? && old(offered) && old(place) != Writing && old(count) < buffer.Length ==> accepted == old(accepted) + [old(offer)]
      ensures m.Thread? && old(offered) && old(place) == Top && !old(pending) && old(count) == buffer.Length ==>
        place == Offered && accepted == old(accepted) && offered && offer == old(offer)
      ensures m.Thread? && old(place) == Writing && !old(pending) ==>
        place == Top && accepted == old(accepted) && offered == old(offered) && offer == old(offer) && count == old(count) && !pending
      ensures m.Thread? && old(place) == Offered ==> place == Top && pending == old(pending) && delivered == old(delivered)
      ensures m.Thread? && old(place) == Top && !old(pending) ==> (pending <==> old(count) > 0 || old(offered))
      ensures m.Thread? && old(place) == Top && old(pending) ==>
        place == Top && pending && (old(count) < buffer.Length ==> !offered && count == old(count) + if old(offered) then 1 else 0)
      ensures m.Produce? && !old(offered) ==> offered && offer == m.word
    {
      if CanMove(m) {
        match m {
          case Produce(word) => Produce(word);
          case Consume => var _ := Consume();
          case Thread =>
            if place == Top {
              Loop();
            } else if place == Offered {
              AfterOffer();
            } else {
              AfterWrite();
            }
        }
      }
    }

    /** Any interleaving of producer, consumer and thread. */
    method Run(moves: seq<Move>)
      requires Valid()
      modifies this, buffer
      ensures Valid() && old(accepted) <= accepted && old(delivered) <= delivered
      ensures delivered <= [0] + accepted && |accepted| <= |delivered| + buffer.Length
    {
      for i := 0 to |moves|
        invariant Valid() && old(accepted) <= accepted && old(delivered) <= delivered
      {
        Do(moves[i]);
      }
      assert |Ring()| == count;
      assert delivered <= delivered + Pending() + Ring();
    }

    /**
     * A word offered while there is room and the thread is not in a write of its own is accepted the next time the thread
     * runs, whatever the consumer does before and whatever happens after.
     */
    method RunAccepts(moves: seq<Move>)
      requires Valid() && offered && place != Writing && count < buffer.Length && Thread in moves
      modifies this, buffer
      ensures Valid() && old(accepted) + [old(offer)] <= accepted
    {
      var ran := false;
      for i := 0 to |moves|
        invariant Valid() && (ran <==> Thread in moves[..i])
        invariant !ran ==> offered && offer == old(offer) && place == old(place) && count == old(count) && accepted == old(accepted)
        invariant ran ==> old(accepted) + [old(offer)] <= accepted
      {
        Do(moves[i]);
        ran := ran || moves[i].Thread?;
        assert moves[..i + 1] == moves[..i] + [moves[i]];
      }
      assert moves[..|moves|] == moves;
    }

    /** While the consumer takes nothing, words are accepted one after the other until the buffer is full. */
    method FillsUp(words: seq<int>)
      requires Valid() && place == Top && pending && !offered && count + |words| <= buffer.Length
      modifies this, buffer
      ensures Valid() && place == Top && pending && accepted == old(accepted) + words && count == old(count) + |words|
    {
      for i := 0 to |words|
        invariant Valid() && place == Top && pending && !offered
        invariant count == old(count) + i && accepted == old(accepted) + words[..i]
      {
        Do(Move.Produce(words[i]));
        Do(Move.Thread);
        assert words[..i + 1] == words[..i] + [words[i]];
      }
      assert words[..|words|] == words;
    }

    /** From any state a word offered is accepted when the consumer keeps taking and the thread runs three times. */
    method Accepts()
      requires Valid() && offered
      modifies this, buffer
      ensures Valid() && old(accepted) + [old(offer)] <= accepted
    {
      Do(Move.Consume);
      if place == Writing {
        Do(Move.Thread);
      }
      if !is_full {
        Do(Move.Thread);
      } else {
        Do(Move.Thread);
        Do(Move.Thread);
      }
    }

    /** A word waiting anywhere is delivered when the consumer takes and the thread runs. */
    method Delivers()
      requires Valid() && |delivered| < 1 + |accepted|
      modifies this, buffer
      ensures Valid() && |delivered| > |old(delivered)|
    {
      if pending {
        Do(Move.Consume);
        return;
      }
      assert |Ring()| == count && delivered + Pending() + Ring() == [0] + accepted;
      if place == Offered || place == Writing {
        Do(Move.Thread);
        assert |Ring()| == count && delivered + Pending() + Ring() == [0] + accepted;
      }
      Do(Move.Thread);
      Do(Move.Consume);
    }
  }
}
