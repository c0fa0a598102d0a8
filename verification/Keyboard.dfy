/**
 The keyboard buffer of kernel/interrupts.c, shared by the interrupt handler and kgetc, as a system of
 steps: the handler is one step, kgetc is cut at every load and store, and the handler may run between any
 two of them.
 */
module Keyboard {
  import opened Common

  const IO_BUFFER_SIZE: nat := 1000
  const L_SHIFT_PRESSED: nat := 0x2A
  const R_SHIFT_PRESSED: nat := 0x36
  const L_SHIFT_RELEASED: nat := 0xAA
  const R_SHIFT_RELEASED: nat := 0xB6
  const LAST_KEY: nat := 0x3A

  const TABLE: string :=
    "**1234567890-=" + [BACKSPACE] + "\tqwertyuiop[]" + "\n*asdfghjkl;'`*\\" + "zxcvbnm,./*" + "** *"
  const TABLE_CAPS: string :=
    "..!@#$%^&*()_+" + [BACKSPACE] + "\tQWERTYUIOP{}" + "\n.ASDFGHJKL:\"~.|" + "ZXCVBNM<>?." + ".. ."

  /** Every code the handler looks up lies inside both tables. */
  lemma TablesCoverTheKeys(code: nat)
    requires code <= LAST_KEY
    ensures code < |TABLE| && code < |TABLE_CAPS|
  {
    assert |TABLE| == 59 && |TABLE_CAPS| == 59;
  }

  // ----- the shared variables, and where the reader is

  /** The next thing kgetc does; i, res and c are the values it holds in registers. */
  datatype Reader =
    | Wait                               // while (iobuffer_count == 0)
    | LoadIndex                          // i = read_val
    | Bump(i: nat)                       // read_val = i + 1
    | Fetch(i: nat)                      // res = iobuffer[i]
    | LoadBumped(res: char)              // i = read_val
    | Wrap(res: char, i: nat)            // read_val = i % IO_BUFFER_SIZE
    | LoadCount(res: char)               // c = iobuffer_count
    | StoreCount(res: char, c: int)      // iobuffer_count = c - 1; return res

  datatype Kb = Kb(iobuffer: seq<char>, readVal: nat, writeVal: nat, count: int, left: bool, right: bool, pc: Reader)

  /**
   The variables with a history: what the handler accepted, what kgetc returned, how many characters were
   accepted since the reader loaded the count (late), how many such increments it has overwritten (lost),
   and whether an unread character was ever overwritten (overrun).
   */
  datatype Trace = Trace(k: Kb, accepted: seq<char>, returned: seq<char>, late: nat, lost: nat, overrun: bool)

  datatype Event = Key(code: nat) | Tick

  // ----- keyboard_handler

  predicate Accepts(k: Kb, code: nat) {
    && code != L_SHIFT_PRESSED && code != R_SHIFT_PRESSED && code != L_SHIFT_RELEASED && code != R_SHIFT_RELEASED
    && code <= LAST_KEY
    && k.count != IO_BUFFER_SIZE
  }

  function CharOf(k: Kb, code: nat): char
    requires code <= LAST_KEY
  {
    TablesCoverTheKeys(code);
    if k.left || k.right then TABLE_CAPS[code] else TABLE[code]
  }

  function Handle(k: Kb, code: nat): Kb
    requires k.writeVal < |k.iobuffer|
  {
    if code == L_SHIFT_PRESSED then k.(left := true)
    else if code == R_SHIFT_PRESSED then k.(right := true)
    else if code == L_SHIFT_RELEASED then k.(left := false)
    else if code == R_SHIFT_RELEASED then k.(right := false)
    else if code > LAST_KEY then k
    else if k.count == IO_BUFFER_SIZE then k
    else k.(iobuffer := k.iobuffer[k.writeVal := CharOf(k, code)],
            writeVal := (k.writeVal + 1) % IO_BUFFER_SIZE, count := k.count + 1)
  }

  // ----- one step of kgetc

  function Advance(k: Kb): Kb
    requires k.pc.Fetch? ==> k.pc.i < |k.iobuffer|
  {
    match k.pc
    case Wait => if k.count == 0 then k else k.(pc := LoadIndex)
    case LoadIndex => k.(pc := Bump(k.readVal))
    case Bump(i) => k.(readVal := i + 1, pc := Fetch(i))
    case Fetch(i) => k.(pc := LoadBumped(k.iobuffer[i]))
    case LoadBumped(res) => k.(pc := Wrap(res, k.readVal))
    case Wrap(res, i) => k.(readVal := i % IO_BUFFER_SIZE, pc := LoadCount(res))
    case LoadCount(res) => k.(pc := StoreCount(res, k.count))
    case StoreCount(_, c) => k.(count := c - 1, pc := Wait)
  }

  // ----- steps with their history

  function Pending(t: Trace): int {
    |t.accepted| - |t.returned|
  }

  function Step(t: Trace, e: Event): Trace
    requires Inv(t)
  {
    match e
    case Key(code) =>
      var k' := Handle(t.k, code);
      if Accepts(t.k, code) then
        Trace(k', t.accepted + [CharOf(t.k, code)], t.returned,
              if t.k.pc.StoreCount? then t.late + 1 else t.late, t.lost, t.overrun || Pending(t) == IO_BUFFER_SIZE)
      else t.(k := k')
    case Tick =>
      var k' := Advance(t.k);
      match t.k.pc
      case LoadCount(_) => t.(k := k', late := 0)
      case StoreCount(res, _) => t.(k := k', returned := t.returned + [res], lost := t.lost + t.late, late := 0)
      case _ => t.(k := k')
  }

  // ----- the invariant

  /** The reader's registers and read_val, for n characters returned. */
  ghost predicate ReaderOk(k: Kb, n: nat) {
    var at := n % IO_BUFFER_SIZE;
    match k.pc
    case Wait => k.readVal == at
    case LoadIndex => k.readVal == at
    case Bump(i) => k.readVal == at && i == at
    case Fetch(i) => k.readVal == at + 1 && i == at
    case LoadBumped(_) => k.readVal == at + 1
    case Wrap(_, i) => k.readVal == at + 1 && i == at + 1
    case LoadCount(_) => k.readVal == (n + 1) % IO_BUFFER_SIZE
    case StoreCount(_, _) => k.readVal == (n + 1) % IO_BUFFER_SIZE
  }

  predicate Holding(pc: Reader) {
    pc.LoadBumped? || pc.Wrap? || pc.LoadCount? || pc.StoreCount?
  }

  ghost predicate Stored(t: Trace, j: nat)
    requires |t.k.iobuffer| == IO_BUFFER_SIZE && j < |t.accepted|
  {
    t.k.iobuffer[j % IO_BUFFER_SIZE] == t.accepted[j]
  }

  /** Unless something was overwritten: every unread character is in its slot, and the order is kept. */
  ghost predicate Fifo(t: Trace)
    requires |t.k.iobuffer| == IO_BUFFER_SIZE
  {
    && 0 <= Pending(t) <= IO_BUFFER_SIZE
    && t.returned == t.accepted[..|t.returned|]
    && (forall j | |t.returned| <= j < |t.accepted| :: Stored(t, j))
    && (Holding(t.k.pc) ==> 0 < Pending(t) && t.k.pc.res == t.accepted[|t.returned|])
  }

  /**
   In every interleaving, the count falls short of the unread characters by exactly the increments that
   were lost; nothing is overwritten unless some were.
   */
  ghost predicate Inv(t: Trace) {
    && |t.k.iobuffer| == IO_BUFFER_SIZE
    && t.k.writeVal == |t.accepted| % IO_BUFFER_SIZE
    && ReaderOk(t.k, |t.returned|)
    && 0 <= t.k.count <= IO_BUFFER_SIZE
    && (!t.k.pc.Wait? ==> 0 < t.k.count)
    && t.k.count + t.lost == Pending(t)
    && (t.k.pc.StoreCount? ==> t.k.pc.c + t.late == t.k.count && 0 < t.k.pc.c)
    && (!t.k.pc.StoreCount? ==> t.late == 0)
    && (t.overrun ==> 0 < t.lost)
    && (!t.overrun ==> Fifo(t))
  }

  lemma NextSlot(n: nat)
    ensures (n % IO_BUFFER_SIZE + 1) % IO_BUFFER_SIZE == (n + 1) % IO_BUFFER_SIZE
  {
  }

  lemma AcceptedFifo(t: Trace, t': Trace, c: char)
    requires |t.k.iobuffer| == IO_BUFFER_SIZE && Fifo(t) && Pending(t) < IO_BUFFER_SIZE
    requires t'.k.iobuffer == t.k.iobuffer[|t.accepted| % IO_BUFFER_SIZE := c]
    requires t'.accepted == t.accepted + [c] && t'.returned == t.returned && t'.k.pc == t.k.pc
    ensures Fifo(t')
  {
    forall j | |t'.returned| <= j < |t'.accepted|
      ensures Stored(t', j)
    {
      if j < |t.accepted| {
        assert Stored(t, j);
        SlotsDiffer(j, |t.accepted|);
      }
    }
    assert t'.accepted[..|t.returned|] == t.accepted[..|t.returned|];
  }

  lemma KeyKeepsInv(t: Trace, code: nat)
    requires Inv(t)
    ensures Inv(Step(t, Key(code)))
  {
    var t' := Step(t, Key(code));
    if Accepts(t.k, code) {
      hide Fifo, CharOf;
      NextSlot(|t.accepted|);
      if !t'.overrun {
        FifoBounds(t);
        AcceptedFifo(t, t', CharOf(t.k, code));
      }
    } else {
      KeyIgnored(t, code);
    }
  }

  lemma FifoBounds(t: Trace)
    requires |t.k.iobuffer| == IO_BUFFER_SIZE && Fifo(t)
    ensures Pending(t) <= IO_BUFFER_SIZE
  {
  }

  lemma KeyIgnored(t: Trace, code: nat)
    requires Inv(t) && !Accepts(t.k, code)
    ensures Inv(Step(t, Key(code)))
  {
    hide CharOf;
    var t' := Step(t, Key(code));
    assert t'.k == t.k.(left := t'.k.left, right := t'.k.right);
    forall j | |t'.returned| <= j < |t'.accepted| && !t.overrun
      ensures Stored(t', j)
    {
      assert Stored(t, j);
    }
  }

  lemma SlotsDiffer(i: nat, j: nat)
    requires i < j < i + IO_BUFFER_SIZE
    ensures i % IO_BUFFER_SIZE != j % IO_BUFFER_SIZE
  {
  }

  lemma TickFifo(t: Trace)
    requires Inv(t) && !t.overrun
    ensures Fifo(Step(t, Tick))
  {
    var t' := Step(t, Tick);
    if t.k.pc.Fetch? {
      assert Stored(t, |t.returned|);
    }
    forall j | |t'.returned| <= j < |t'.accepted|
      ensures Stored(t', j)
    {
      assert Stored(t, j);
    }
  }

  lemma TickKeepsInv(t: Trace)
    requires Inv(t)
    ensures Inv(Step(t, Tick))
  {
    if !t.overrun {
      TickFifo(t);
    }
    hide Fifo;
    NextSlot(|t.returned|);
  }

  // ----- every run

  lemma StepKeepsInv(t: Trace, e: Event)
    requires Inv(t)
    ensures Inv(Step(t, e))
  {
    match e
    case Key(code) => KeyKeepsInv(t, code);
    case Tick => TickKeepsInv(t);
  }

  function Run(t: Trace, es: seq<Event>): (r: Trace)
    requires Inv(t)
    ensures Inv(r)
  {
    if es == [] then t
    else
      var t1 := Run(t, es[..|es| - 1]);
      StepKeepsInv(t1, es[|es| - 1]);
      Step(t1, es[|es| - 1])
  }

  /** Nothing typed yet; the buffer may hold anything. */
  function Start(iobuffer: seq<char>): (t: Trace)
    requires |iobuffer| == IO_BUFFER_SIZE
    ensures Inv(t)
  {
    Trace(Kb(iobuffer, 0, 0, 0, false, false, Wait), [], [], 0, 0, false)
  }

  /** Does e put a character into the buffer between the two halves of kgetc's iobuffer_count--? */
  predicate Hits(t: Trace, e: Event) {
    e.Key? && t.k.pc.StoreCount? && Accepts(t.k, e.code)
  }

  function HitCount(t: Trace, es: seq<Event>): nat
    requires Inv(t)
  {
    if es == [] then 0
    else
      HitCount(t, es[..|es| - 1]) + if Hits(Run(t, es[..|es| - 1]), es[|es| - 1]) then 1 else 0
  }

  /** Exactly the characters that hit the decrement are missing from the count, now or after the next store. */
  lemma {:induction false} LostAreHits(iobuffer: seq<char>, es: seq<Event>)
    requires |iobuffer| == IO_BUFFER_SIZE
    ensures Run(Start(iobuffer), es).lost + Run(Start(iobuffer), es).late == HitCount(Start(iobuffer), es)
    decreases |es|
  {
    if es != [] {
      LostAreHits(iobuffer, es[..|es| - 1]);
    }
  }

  /**
   First in, first out, in every run and exactly when it holds: what kgetc has returned is a prefix of what
   the handler accepted, no unread character was ever overwritten, and the count is the number of unread
   characters, if and only if every key that has hit the decrement still waits for its store. Then each
   unread character is in its slot, and between two calls the count is also the distance of the two indices.
   */
  lemma FifoUnderEveryInterleaving(iobuffer: seq<char>, es: seq<Event>)
    requires |iobuffer| == IO_BUFFER_SIZE
    ensures var t := Run(Start(iobuffer), es); var hits := HitCount(Start(iobuffer), es);
      && |t.k.iobuffer| == IO_BUFFER_SIZE
      && (hits == t.late <==>
            t.returned <= t.accepted && !t.overrun && t.k.count == |t.accepted| - |t.returned|)
      && (hits == t.late ==>
            && (forall j | |t.returned| <= j < |t.accepted| :: Stored(t, j))
            && (t.k.pc.Wait? ==> (t.k.writeVal - t.k.readVal) % IO_BUFFER_SIZE == t.k.count % IO_BUFFER_SIZE))
  {
    hide Inv, Step, Run, HitCount, Start;
    var t := Run(Start(iobuffer), es);
    LostAreHits(iobuffer, es);
    OrderOrOverrun(t);
    if t.lost == 0 {
      NothingLost(t);
    }
  }

  /**
   By how much other runs fall short: the count lacks one for every hit that has been stored over, the order
   is kept as long as nothing is overwritten, and nothing is overwritten before the first such store.
   */
  lemma CountFallsShortByHits(iobuffer: seq<char>, es: seq<Event>)
    requires |iobuffer| == IO_BUFFER_SIZE
    ensures var t := Run(Start(iobuffer), es); var hits := HitCount(Start(iobuffer), es);
      && t.late <= hits && t.k.count == |t.accepted| - |t.returned| - (hits - t.late)
      && (t.overrun ==> t.late < hits)
      && (!t.overrun ==> t.returned <= t.accepted)
  {
    LostAreHits(iobuffer, es);
    OrderOrOverrun(Run(Start(iobuffer), es));
  }

  lemma OrderOrOverrun(t: Trace)
    requires Inv(t)
    ensures |t.k.iobuffer| == IO_BUFFER_SIZE && t.k.count + t.lost == Pending(t)
    ensures if t.overrun then 0 < t.lost else t.returned <= t.accepted
  {
  }

  lemma NothingLost(t: Trace)
    requires Inv(t) && t.lost == 0
    ensures t.returned <= t.accepted
    ensures |t.k.iobuffer| == IO_BUFFER_SIZE
    ensures !t.overrun && (forall j | |t.returned| <= j < |t.accepted| :: Stored(t, j))
    ensures t.k.count == |t.accepted| - |t.returned|
    ensures t.k.pc.Wait? ==> (t.k.writeVal - t.k.readVal) % IO_BUFFER_SIZE == t.k.count % IO_BUFFER_SIZE
  {
    Distance(|t.returned|, |t.accepted|);
  }

  lemma Distance(a: nat, b: nat)
    requires a <= b
    ensures (b % IO_BUFFER_SIZE - a % IO_BUFFER_SIZE) % IO_BUFFER_SIZE == (b - a) % IO_BUFFER_SIZE
  {
    var q, p := b / IO_BUFFER_SIZE, a / IO_BUFFER_SIZE;
    var x := b % IO_BUFFER_SIZE - a % IO_BUFFER_SIZE;
    assert b - a == x + IO_BUFFER_SIZE * (q - p);
    ModShift(x, q - p);
  }

  lemma ModShift(x: int, k: int)
    ensures (x + IO_BUFFER_SIZE * k) % IO_BUFFER_SIZE == x % IO_BUFFER_SIZE
  {
  }

  /** A full buffer turns keys away exactly when no increment has been lost; otherwise an unread character goes. */
  lemma FullBufferDropsOrOverwrites(t: Trace, code: nat)
    requires Inv(t) && !t.overrun && Pending(t) == IO_BUFFER_SIZE
    requires code <= LAST_KEY && code != L_SHIFT_PRESSED && code != R_SHIFT_PRESSED
    ensures t.lost == 0 ==> Step(t, Key(code)) == t
    ensures t.lost > 0 ==>
      var t' := Step(t, Key(code));
      t'.overrun && t'.accepted == t.accepted + [CharOf(t.k, code)]
      && t'.k.iobuffer[|t.returned| % IO_BUFFER_SIZE] == CharOf(t.k, code)
  {
    assert |t.accepted| == |t.returned| + IO_BUFFER_SIZE * 1;
    ModShift(|t.returned|, 1);
  }

  lemma RunOne(t: Trace, es: seq<Event>, e: Event)
    requires Inv(t)
    ensures Run(t, es + [e]) == Step(Run(t, es), e)
    ensures HitCount(t, es + [e]) == HitCount(t, es) + if Hits(Run(t, es), e) then 1 else 0
  {
    assert (es + [e])[..|es|] == es;
  }

  function Ticks(n: nat): seq<Event> {
    if n == 0 then [] else Ticks(n - 1) + [Tick]
  }

  function After(t: Trace, n: nat): (r: Trace)
    requires Inv(t)
    ensures Inv(r)
  {
    if n == 0 then t
    else
      StepKeepsInv(After(t, n - 1), Tick);
      Step(After(t, n - 1), Tick)
  }

  lemma {:induction false} RunTicks(t: Trace, es: seq<Event>, n: nat)
    requires Inv(t)
    ensures Run(t, es + Ticks(n)) == After(Run(t, es), n)
    ensures HitCount(t, es + Ticks(n)) == HitCount(t, es)
  {
    hide Inv, Step, Run, HitCount, Hits;
    if n == 0 {
      assert es + Ticks(0) == es;
    } else {
      RunTicks(t, es, n - 1);
      assert es + Ticks(n) == (es + Ticks(n - 1)) + [Tick];
      RunOne(t, es + Ticks(n - 1), Tick);
      TickHitsNothing(Run(t, es + Ticks(n - 1)));
    }
  }

  lemma TickHitsNothing(t: Trace)
    ensures !Hits(t, Tick)
  {
  }

  /** Seven steps take kgetc from a non-empty buffer to the store of the decremented count. */
  lemma SevenTicks(t: Trace)
    requires Inv(t) && t.k.pc.Wait? && t.k.count != 0
    ensures var t' := After(t, 7);
      && t'.k.pc.StoreCount? && t'.late == 0 && t'.lost == t.lost && t'.k.count == t.k.count
      && t'.accepted == t.accepted && t'.returned == t.returned
      && t'.k.left == t.k.left && t'.k.right == t.k.right
  {
    var t3 := After(t, 3);
    assert After(t, 0) == t && After(t, 1).k.pc == LoadIndex && After(t, 2).k.pc.Bump?;
    assert t3.k.pc.Fetch?;
    var t6 := After(t, 6);
    assert After(t, 4).k.pc.LoadBumped? && After(t, 5).k.pc.Wrap? && t6.k.pc.LoadCount?;
  }

  /**
   One key typed while kgetc stands between loading and storing the count: the count drops to zero with a
   character unread, and kgetc waits although there is something to read.
   */
  lemma LostIncrementExample(iobuffer: seq<char>)
    requires |iobuffer| == IO_BUFFER_SIZE
    ensures exists es: seq<Event> :: Stalls(iobuffer, es)
  {
    hide Inv, Step;
    var t0, a := Start(iobuffer), Key(0x1E);
    FirstKey(iobuffer);
    RunOne(t0, [], a);
    assert [] + [a] == [a];
    RunTicks(t0, [a], 7);
    SevenTicks(Run(t0, [a]));
    var es := [a] + Ticks(7);
    RunOne(t0, es, a);
    RunOne(t0, es + [a], Tick);
    KeyInDecrement(Run(t0, es));
    assert Stalls(iobuffer, es + [a] + [Tick]);
  }

  lemma TableAt(code: nat)
    requires code == 0x1E || code == 0x1F
    ensures code < |TABLE| && TABLE[code] == if code == 0x1E then 'a' else 's'
  {
  }

  lemma FirstKey(iobuffer: seq<char>)
    requires |iobuffer| == IO_BUFFER_SIZE
    ensures var t := Step(Start(iobuffer), Key(0x1E));
      && t.k.pc.Wait? && t.k.count == 1 && t.lost == 0 && t.accepted == "a" && t.returned == ""
      && !t.k.left && !t.k.right
    ensures !Hits(Start(iobuffer), Key(0x1E))
  {
    TableAt(0x1E);
  }

  lemma KeyInDecrement(t: Trace)
    requires Inv(t) && t.k.pc.StoreCount? && t.late == 0 && t.lost == 0 && t.k.count == 1
    requires t.accepted == "a" && t.returned == "" && !t.k.left && !t.k.right
    ensures Hits(t, Key(0x1E)) && Inv(Step(t, Key(0x1E))) && Inv(Step(Step(t, Key(0x1E)), Tick))
    ensures !Hits(Step(t, Key(0x1E)), Tick)
    ensures var t' := Step(Step(t, Key(0x1E)), Tick);
      && t'.k.count == 0 && t'.accepted == "aa" && |t'.returned| == 1 && Step(t', Tick) == t'
      && t'.k.pc.Wait? && !t'.k.left && !t'.k.right
  {
    TableAt(0x1E);
    StepKeepsInv(t, Key(0x1E));
    StepKeepsInv(Step(t, Key(0x1E)), Tick);
  }

  /** One key has hit the decrement, and kgetc waits for good with a character in the buffer. */
  ghost predicate Stalls(iobuffer: seq<char>, es: seq<Event>)
    requires |iobuffer| == IO_BUFFER_SIZE
  {
    var t := Run(Start(iobuffer), es);
    && HitCount(Start(iobuffer), es) == 1 && t.accepted == "aa" && |t.returned| == 1
    && t.k.count == 0 && Step(t, Tick) == t && t.k.pc.Wait? && !t.k.left && !t.k.right
  }
}
