/**
 The keyboard buffer in every run, also after an unread character has been overwritten: what its slots hold,
 and what kgetc returns.
 */
module KeyboardOverruns {
  import opened Keyboard

  /** c is an accepted character of slot n % IO_BUFFER_SIZE, the n-th one or one that came later. */
  ghost predicate FromSlot(accepted: seq<char>, n: nat, c: char) {
    exists m :: n <= m < |accepted| && m % IO_BUFFER_SIZE == n % IO_BUFFER_SIZE && accepted[m] == c
  }

  /** The slots hold the newest accepted characters, and kgetc only ever returns what a slot held. */
  ghost predicate Slots(t: Trace) {
    && |t.k.iobuffer| == IO_BUFFER_SIZE
    && (forall j | 0 <= j < |t.accepted| && |t.accepted| <= j + IO_BUFFER_SIZE :: Stored(t, j))
    && (forall n | 0 <= n < |t.returned| :: FromSlot(t.accepted, n, t.returned[n]))
    && (Holding(t.k.pc) ==> FromSlot(t.accepted, |t.returned|, t.k.pc.res))
  }

  lemma FromSlotKept(accepted: seq<char>, n: nat, c: char, more: char)
    requires FromSlot(accepted, n, c)
    ensures FromSlot(accepted + [more], n, c)
  {
    var m :| n <= m < |accepted| && m % IO_BUFFER_SIZE == n % IO_BUFFER_SIZE && accepted[m] == c;
    assert (accepted + [more])[m] == c;
  }

  lemma AcceptedSlots(t: Trace, t': Trace, c: char)
    requires Slots(t) && t'.k.iobuffer == t.k.iobuffer[|t.accepted| % IO_BUFFER_SIZE := c]
    requires t'.accepted == t.accepted + [c] && t'.returned == t.returned && t'.k.pc == t.k.pc
    ensures Slots(t')
  {
    forall j | 0 <= j < |t'.accepted| && |t'.accepted| <= j + IO_BUFFER_SIZE
      ensures Stored(t', j)
    {
      if j < |t.accepted| {
        assert Stored(t, j);
        SlotsDiffer(j, |t.accepted|);
      }
    }
    forall n | 0 <= n < |t'.returned|
      ensures FromSlot(t'.accepted, n, t'.returned[n])
    {
      FromSlotKept(t.accepted, n, t.returned[n], c);
    }
    if Holding(t.k.pc) {
      FromSlotKept(t.accepted, |t.returned|, t.k.pc.res, c);
    }
  }

  lemma KeyKeepsSlots(t: Trace, code: nat)
    requires Inv(t) && Slots(t)
    ensures Slots(Step(t, Key(code)))
  {
    hide CharOf, Fifo;
    if Accepts(t.k, code) {
      AcceptedSlots(t, Step(t, Key(code)), CharOf(t.k, code));
    } else {
      SameSlots(t, Step(t, Key(code)));
    }
  }

  lemma SameSlots(t: Trace, t': Trace)
    requires Slots(t) && t'.k.iobuffer == t.k.iobuffer && t'.accepted == t.accepted && t'.returned == t.returned
    requires Holding(t'.k.pc) ==> FromSlot(t.accepted, |t.returned|, t'.k.pc.res)
    ensures Slots(t')
  {
    forall j | 0 <= j < |t'.accepted| && |t'.accepted| <= j + IO_BUFFER_SIZE
      ensures Stored(t', j)
    {
      assert Stored(t, j);
    }
  }

  /** The number of the newest of len accepted characters in the slot of character n. */
  function NewestIn(n: nat, len: nat): (m: nat)
    requires n < len
    ensures n <= m < len <= m + IO_BUFFER_SIZE && m % IO_BUFFER_SIZE == n % IO_BUFFER_SIZE
  {
    var laps := (len - 1 - n) / IO_BUFFER_SIZE;
    ModShift(n, laps);
    n + IO_BUFFER_SIZE * laps
  }

  /** What kgetc reads is the newest accepted character of its slot: the next one, unless that was overwritten. */
  lemma FetchTakesNewest(t: Trace)
    requires Inv(t) && Slots(t) && t.k.pc.Fetch?
    ensures |t.returned| < |t.accepted|
    ensures Step(t, Tick).k.pc == LoadBumped(t.accepted[NewestIn(|t.returned|, |t.accepted|)])
  {
    hide Fifo;
    var m := NewestIn(|t.returned|, |t.accepted|);
    assert Stored(t, m);
  }

  lemma TickKeepsSlots(t: Trace)
    requires Inv(t) && Slots(t)
    ensures Slots(Step(t, Tick))
  {
    var t' := Step(t, Tick);
    if t.k.pc.Fetch? {
      FetchTakesNewest(t);
      assert FromSlot(t.accepted, |t.returned|, t'.k.pc.res);
    }
    hide Inv, Fifo;
    if t.k.pc.StoreCount? {
      ReturnedSlots(t, t', t.k.pc.res);
    } else {
      SameSlots(t, t');
    }
  }

  lemma ReturnedSlots(t: Trace, t': Trace, c: char)
    requires Slots(t) && Holding(t.k.pc) && t.k.pc.res == c && t'.k.pc == Wait
    requires t'.k.iobuffer == t.k.iobuffer && t'.accepted == t.accepted && t'.returned == t.returned + [c]
    ensures Slots(t')
  {
    forall j | 0 <= j < |t'.accepted| && |t'.accepted| <= j + IO_BUFFER_SIZE
      ensures Stored(t', j)
    {
      assert Stored(t, j);
    }
  }

  /**
   Every run, with any number of hits and overwrites: the slots hold the newest accepted characters, and the
   n-th character returned is the n-th accepted one or, if that was overwritten, a later one of its slot.
   */
  lemma {:induction false} SlotsInEveryRun(iobuffer: seq<char>, es: seq<Event>)
    requires |iobuffer| == IO_BUFFER_SIZE
    ensures Slots(Run(Start(iobuffer), es))
    decreases |es|
  {
    if es != [] {
      hide Inv, Step, Slots;
      SlotsInEveryRun(iobuffer, es[..|es| - 1]);
      var t := Run(Start(iobuffer), es[..|es| - 1]);
      match es[|es| - 1]
      case Key(code) => KeyKeepsSlots(t, code);
      case Tick => TickKeepsSlots(t);
    }
  }

  // ----- a run in which a character is overwritten

  /** An undisturbed kgetc on a buffer that is not empty. */
  lemma EightTicks(t: Trace)
    requires Inv(t) && Slots(t) && t.k.pc.Wait? && t.k.count != 0
    ensures |t.returned| < |t.accepted|
    ensures var t' := After(t, 8);
      && t'.accepted == t.accepted && t'.overrun == t.overrun
      && t'.returned == t.returned + [t.accepted[NewestIn(|t.returned|, |t.accepted|)]]
  {
    hide Inv, Step, Fifo, After;
    var t3 := After(t, 3);
    ThreeTicks(t);
    SameSlots(t, t3);
    FetchTakesNewest(t3);
    FiveTicks(t3, t.accepted[NewestIn(|t.returned|, |t.accepted|)]);
    AfterAfter(t, 3, 5);
  }

  lemma ThreeTicks(t: Trace)
    requires Inv(t) && t.k.pc.Wait? && t.k.count != 0
    ensures var t' := After(t, 3);
      t'.k.pc.Fetch? && t'.k.iobuffer == t.k.iobuffer
      && t'.accepted == t.accepted && t'.returned == t.returned && t'.overrun == t.overrun
  {
    hide Fifo;
    assert After(t, 0) == t && After(t, 1).k.pc == LoadIndex && After(t, 2).k.pc.Bump?;
  }

  lemma FiveTicks(t: Trace, c: char)
    requires Inv(t) && t.k.pc.Fetch? && Step(t, Tick).k.pc == LoadBumped(c)
    ensures var t' := After(t, 5);
      t'.returned == t.returned + [c] && t'.accepted == t.accepted && t'.overrun == t.overrun
  {
    hide Fifo;
    assert After(t, 0) == t && After(t, 1).k.pc == LoadBumped(c) && After(t, 2).k.pc.Wrap?;
    assert After(t, 3).k.pc == LoadCount(c) && After(t, 4).k.pc.StoreCount?;
  }

  lemma {:induction false} AfterAfter(t: Trace, a: nat, b: nat)
    requires Inv(t)
    ensures After(After(t, a), b) == After(t, a + b)
    decreases b
  {
    hide Inv, Step;
    if b > 0 {
      AfterAfter(t, a, b - 1);
    }
  }

  function Keys(code: nat, n: nat): seq<Event> {
    if n == 0 then [] else Keys(code, n - 1) + [Key(code)]
  }

  ghost predicate Idle(t: Trace) {
    t.k.pc.Wait? && t.k.count == 0 && !t.k.left && !t.k.right
  }

  /** From t to t', n more characters have been accepted and nothing else has happened. */
  ghost predicate Typed(t: Trace, t': Trace, n: nat) {
    && t'.k == t.k.(iobuffer := t'.k.iobuffer, writeVal := t'.k.writeVal, count := n)
    && |t'.accepted| == |t.accepted| + n && t.accepted <= t'.accepted
    && t'.returned == t.returned && t'.lost == t.lost
  }

  /** A reader waits at a zero count while n keys arrive without shift. */
  lemma {:induction false} ManyKeys(t0: Trace, es: seq<Event>, n: nat)
    requires Inv(t0) && Idle(Run(t0, es)) && n <= IO_BUFFER_SIZE
    ensures Typed(Run(t0, es), Run(t0, es + Keys(0x1E, n)), n)
    ensures HitCount(t0, es + Keys(0x1E, n)) == HitCount(t0, es)
  {
    hide Inv, Run, HitCount, Idle, Typed, Step, Hits;
    if n == 0 {
      assert es + Keys(0x1E, 0) == es;
      TypedNone(Run(t0, es));
    } else {
      ManyKeys(t0, es, n - 1);
      var es' := es + Keys(0x1E, n - 1);
      assert es + Keys(0x1E, n) == es' + [Key(0x1E)];
      RunOne(t0, es', Key(0x1E));
      TypedOne(Run(t0, es), Run(t0, es'), n - 1);
    }
  }

  lemma TypedNone(t: Trace)
    requires Idle(t)
    ensures Typed(t, t, 0)
  {
  }

  lemma TypedOne(t: Trace, t1: Trace, n: nat)
    requires Idle(t) && Inv(t1) && Typed(t, t1, n) && n < IO_BUFFER_SIZE
    ensures Typed(t, Step(t1, Key(0x1E)), n + 1) && !Hits(t1, Key(0x1E))
  {
    hide Inv;
    OneKey(t1, 0x1E);
  }

  lemma OneKey(t: Trace, code: nat)
    requires Inv(t) && t.k.pc.Wait? && !t.k.left && !t.k.right && t.k.count != IO_BUFFER_SIZE
    requires code == 0x1E || code == 0x1F
    ensures var t' := Step(t, Key(code));
      && t'.k == t.k.(iobuffer := t'.k.iobuffer, writeVal := t'.k.writeVal, count := t.k.count + 1)
      && t'.accepted == t.accepted + [if code == 0x1E then 'a' else 's']
      && t'.returned == t.returned && t'.lost == t.lost
      && (Pending(t) == IO_BUFFER_SIZE ==> t'.overrun)
    ensures !Hits(t, Key(code))
  {
    hide Fifo;
    TableAt(code);
  }

  lemma StallIsIdle(iobuffer: seq<char>, es: seq<Event>)
    requires |iobuffer| == IO_BUFFER_SIZE && Stalls(iobuffer, es)
    ensures HitCount(Start(iobuffer), es) == 1
    ensures var t := Run(Start(iobuffer), es); Idle(t) && t.accepted == "aa" && |t.returned| == 1
  {
  }

  /** The thousandth key finds the buffer full and the count one short of it. */
  lemma LastKey(t: Trace, t1: Trace)
    requires Idle(t) && t.accepted == "aa" && |t.returned| == 1 && Inv(t1) && Typed(t, t1, 999)
    ensures var t2 := Step(t1, Key(0x1F));
      && t2.k.pc.Wait? && t2.k.count != 0 && t2.overrun && |t2.returned| == 1
      && |t2.accepted| == 1002 && t2.accepted[1] == 'a' && t2.accepted[1001] == 's'
    ensures !Hits(t1, Key(0x1F))
  {
    hide Fifo;
    OneKey(t1, 0x1F);
  }

  /**
   One hit leaves the count at zero with a character unread. Then 999 keys fill the buffer, one more is still
   accepted, and kgetc returns the last key in place of the first unread one.
   */
  lemma OverwriteExample(iobuffer: seq<char>)
    requires |iobuffer| == IO_BUFFER_SIZE
    ensures exists es: seq<Event> :: WrongOrder(iobuffer, es)
  {
    hide Inv, Step, Stalls, Idle, Typed, Slots, Run, HitCount, Hits, WrongOrder, Start;
    var t0 := Start(iobuffer);
    LostIncrementExample(iobuffer);
    var es: seq<Event> :| Stalls(iobuffer, es);
    var es1 := es + Keys(0x1E, 999);
    var es2 := es1 + [Key(0x1F)];
    StallIsIdle(iobuffer, es);
    ManyKeys(t0, es, 999);
    RunOne(t0, es1, Key(0x1F));
    RunTicks(t0, es2, 8);
    SlotsInEveryRun(iobuffer, es2);
    LastKey(Run(t0, es), Run(t0, es1));
    EightTicks(Run(t0, es2));
    OutOfOrder(iobuffer, es2 + Ticks(8), Run(t0, es2));
  }

  lemma OutOfOrder(iobuffer: seq<char>, es: seq<Event>, t: Trace)
    requires |iobuffer| == IO_BUFFER_SIZE && HitCount(Start(iobuffer), es) == 1
    requires t.overrun && |t.returned| == 1 && |t.accepted| == 1002
    requires t.accepted[1] == 'a' && t.accepted[1001] == 's'
    requires var t' := Run(Start(iobuffer), es);
      && t'.accepted == t.accepted && t'.overrun == t.overrun
      && t'.returned == t.returned + [t.accepted[NewestIn(1, 1002)]]
    ensures WrongOrder(iobuffer, es)
  {
    hide Inv, Step, Run, HitCount;
    assert NewestIn(1, 1002) == 1001;
  }

  /** kgetc has returned a character that is not the next one accepted, after a single hit. */
  ghost predicate WrongOrder(iobuffer: seq<char>, es: seq<Event>)
    requires |iobuffer| == IO_BUFFER_SIZE
  {
    var t := Run(Start(iobuffer), es);
    HitCount(Start(iobuffer), es) == 1 && t.overrun && !(t.returned <= t.accepted)
  }
}
