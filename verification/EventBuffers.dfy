/** The driver's buffer arrays and the three operations on them, proved against the step functions. */
module EventBuffers {
  import opened Words
  import opened Events
  import opened Trailer
  import opened DriverBuffers

  class Buffers {
    const n: nat
    /** Number of events at which a buffer is full; each buffer has one more slot. */
    const full: nat
    const evbuf: array2<Event>
    const evnum: array<int>
    const evbufstat: array<int>

    ghost predicate Sized() {
      && evbuf.Length0 == evnum.Length == evbufstat.Length == n && evbuf.Length1 == full + 1
      && evnum != evbufstat && 1 < full < TWO_TO_31
    }

    ghost predicate Shape()
      reads evnum
    {
      Sized() && forall i | 0 <= i < n :: evnum[i] >= 0
    }

    ghost function Slots(i: nat): (s: seq<Event>)
      requires Sized() && i < n
      reads evbuf
      ensures |s| == full + 1
    {
      seq(full + 1, k requires Sized() && 0 <= k < full + 1 reads evbuf => evbuf[i, k])
    }

    ghost function BankAt(i: nat): Bank
      requires Shape() && i < n
      reads evbuf, evnum, evbufstat
    {
      Bank(Slots(i), evnum[i], evbufstat[i])
    }

    /** The buffers as values. */
    ghost function Banks(): (banks: seq<Bank>)
      requires Shape()
      reads evbuf, evnum, evbufstat
      ensures |banks| == n
    {
      seq(n, i requires Shape() && 0 <= i < n reads evbuf, evnum, evbufstat => BankAt(i))
    }

    ghost predicate Valid()
      reads evbuf, evnum, evbufstat
    {
      Shape() && Consistent(Banks(), full)
    }

    constructor (n: nat, full: nat, blank: Event)
      requires 1 < full < TWO_TO_31
      ensures this.n == n && this.full == full && fresh(evbuf) && fresh(evnum) && fresh(evbufstat)
      ensures Valid() && Banks() == EmptyBanks(n, blank, full)
    {
      this.n, this.full := n, full;
      evbuf := new Event[n, full + 1]((_, _) => blank);
      evnum := new int[n](_ => 0);
      evbufstat := new int[n](_ => EMPTY);
      new;
      assert forall i | 0 <= i < n :: Slots(i) == EmptyBanks(n, blank, full)[i].slots;
      assert Banks() == EmptyBanks(n, blank, full);
    }

    /** An operation that touched one buffer. */
    twostate lemma OnlyBank(i: nat)
      requires old(Shape()) && Shape() && i < n
      requires forall j | 0 <= j < n && j != i :: BankAt(j) == old(BankAt(j))
      ensures Banks() == old(Banks())[i := BankAt(i)]
    {}

    /** Scans for the first buffer with a status. */
    method Find(stat: int) returns (sbi: nat)
      requires Shape()
      ensures sbi == FirstWith(Banks(), stat, 0)
    {
      sbi := 0;
      while sbi < n
        invariant sbi <= n
        invariant FirstWith(Banks(), stat, sbi) == FirstWith(Banks(), stat, 0)
      {
        if evbufstat[sbi] == stat {
          return;
        }
        sbi := sbi + 1;
      }
    }

    /** Takes the next slot of the buffer being filled. */
    method Advance(sbi: nat) returns (slot: Slot)
      requires Valid() && sbi < n && evbufstat[sbi] == FILLING
      modifies evnum, evbufstat
      ensures Shape() && slot == Slot(sbi, old(evnum[sbi]))
      ensures
        var bank := old(BankAt(sbi));
        var num := bank.num + 1;
        Banks() == old(Banks())[sbi := bank.(num := num, stat := if num == full then FULL else FILLING)]
    {
      slot := Slot(sbi, evnum[sbi]);
      evnum[sbi] := evnum[sbi] + 1;
      if evnum[sbi] == full {
        evbufstat[sbi] := FULL;
      }
      OnlyBank(sbi);
    }

    /** Starts filling an empty buffer. */
    method Open(sbi: nat) returns (slot: Slot)
      requires Valid() && sbi < n
      modifies evnum, evbufstat
      ensures Shape() && slot == Slot(sbi, 0)
      ensures Banks() == old(Banks())[sbi := old(BankAt(sbi)).(num := 1, stat := FILLING)]
    {
      slot := Slot(sbi, 0);
      evnum[sbi] := 1;
      evbufstat[sbi] := FILLING;
      OnlyBank(sbi);
    }

    method GetNextEvent() returns (slot: Slot)
      requires Valid()
      modifies evnum, evbufstat
      ensures Valid()
      ensures slot == NextSlot(old(Banks()))
      ensures Banks() == Take(old(Banks()), full)
    {
      ghost var banks := Banks();
      TakeKeepsConsistent(banks, full);
      hide Consistent, Slots;
      var sbi := Find(FILLING);
      if sbi < n {
        assert banks[sbi].stat == FILLING;
        slot := Advance(sbi);
        return;
      }
      sbi := Find(EMPTY);
      if sbi < n {
        assert banks[sbi].stat == EMPTY;
        slot := Open(sbi);
        return;
      }
      slot := NoSlot;
    }

    /** The caller writes the event through the pointer it was handed. */
    method Write(slot: Slot, event: Event)
      requires Shape() && (slot.Slot? ==> slot.bank < n && slot.index <= full)
      modifies evbuf
      ensures Shape() && Banks() == Store(old(Banks()), slot, event)
    {
      ghost var banks := Banks();
      if slot.Slot? {
        evbuf[slot.bank, slot.index] := event;
        assert Slots(slot.bank) == banks[slot.bank].slots[slot.index := event];
        assert forall i | 0 <= i < n && i != slot.bank :: Slots(i) == banks[i].slots;
        assert forall i | 0 <= i < n :: BankAt(i) == Store(banks, slot, event)[i];
      }
    }

    /** Scans all buffers; the last one with something to send wins. */
    method FindToSend() returns (sbitosend: int)
      requires Shape()
      ensures sbitosend == LastPending(Banks())
    {
      sbitosend := -1;
      var sbi := 0;
      while sbi < n
        invariant sbi <= n
        invariant sbitosend == LastPending(Banks()[..sbi])
      {
        if evbufstat[sbi] == 1 {
          sbitosend := sbi;
        }
        if evbufstat[sbi] == 2 {
          sbitosend := sbi;
        }
        assert Banks()[..sbi + 1][..sbi] == Banks()[..sbi];
        sbi := sbi + 1;
      }
      assert Banks()[..n] == Banks();
    }

    /** Writes the trailer after the last event and gives the buffer away. */
    method Close(sbi: nat, mstime0: Timeb, mstime1: Timeb)
      requires Valid() && sbi < n && evbufstat[sbi] != IN_FLIGHT
      modifies evbuf, evnum, evbufstat
      ensures Shape()
      ensures
        var bank := old(BankAt(sbi));
        var num := bank.num;
        num <= full && Banks() == old(Banks())[sbi :=
          Bank(bank.slots[num := MakeTrailer(bank.slots[num], num, mstime0, mstime1)], num + 1, IN_FLIGHT)]
    {
      ghost var bank := BankAt(sbi);
      assert Banks()[sbi].Fits(full);
      hide Consistent, MakeTrailer;
      var num := evnum[sbi];
      evbufstat[sbi] := IN_FLIGHT;
      evbuf[sbi, num] := MakeTrailer(evbuf[sbi, num], num, mstime0, mstime1);
      evnum[sbi] := num + 1;
      assert Slots(sbi) == bank.slots[num := MakeTrailer(bank.slots[num], num, mstime0, mstime1)];
      assert forall i | 0 <= i < n && i != sbi :: Slots(i) == old(Slots(i));
      OnlyBank(sbi);
    }

    /** Returns the index of the buffer sent, and 0 also when there is nothing to send. When the messaging layer does
        not take the message, closing it frees the buffer at once. */
    method SendData(mstime0: Timeb, mstime1: Timeb, taken: bool) returns (sbi: int, message: seq<Event>)
      requires Valid()
      modifies evbuf, evnum, evbufstat
      ensures Valid()
      ensures
        var b, sent := LastPending(old(Banks())), Sent(old(Banks()), full, mstime0, mstime1);
        if b == -1 then sbi == 0 && message == [] && Banks() == old(Banks())
        else
          && sbi == b && message == sent[b].slots[..sent[b].num]
          && Banks() == if taken then sent else Freed(sent, b)
    {
      ghost var banks := Banks();
      var sbitosend := FindToSend();
      if sbitosend == -1 {
        return 0, [];
      }
      assert banks[sbitosend].IsPending();
      SendKeepsConsistent(banks, full, mstime0, mstime1);
      Close(sbitosend, mstime0, mstime1);
      hide Consistent, MakeTrailer;
      sbi := sbitosend;
      assert evnum[sbi] == Banks()[sbi].num == banks[sbi].num + 1;
      message := Content(sbi);
      if !taken {
        FreeSubbuffer(sbi);
      }
    }

    /** The slots in use. */
    method Content(sbi: nat) returns (message: seq<Event>)
      requires Shape() && sbi < n && evnum[sbi] <= full + 1
      ensures message == BankAt(sbi).slots[..evnum[sbi]]
    {
      var num := evnum[sbi];
      message := seq(num, k requires 0 <= k < num <= evbuf.Length1 && sbi < evbuf.Length0 reads evbuf => evbuf[sbi, k]);
    }

    /** The messaging layer's callback. */
    method FreeSubbuffer(hint: nat)
      requires Valid() && hint < n
      modifies evnum, evbufstat
      ensures Valid()
      ensures Banks() == Freed(old(Banks()), hint)
      ensures evbufstat[hint] == 0 && evnum[hint] == 0
      ensures forall i | 0 <= i < n && i != hint :: evbufstat[i] == old(evbufstat[i]) && evnum[i] == old(evnum[i])
    {
      ghost var banks := Banks();
      FreeKeepsConsistent(banks, full, hint);
      hide Consistent;
      evbufstat[hint] := EMPTY;
      evnum[hint] := 0;
      OnlyBank(hint);
    }
  }
}
