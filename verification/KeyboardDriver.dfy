/**
 keyboard_handler, kgetc and SYS_read of kernel/interrupts.c in their own form, over variables that the
 handler changes behind the reader's back. The key codes that will arrive are given per reader step.
 */
module KeyboardDriver {
  import opened Common
  import opened Keyboard

  function KeyEvents(codes: seq<nat>): seq<Event> {
    seq(|codes|, i requires 0 <= i < |codes| => Key(codes[i]))
  }

  class Driver {
    const arrivals: seq<seq<nat>>   // the codes read from port 0x60 before each step of the reader
    var clock: nat                  // reader steps so far
    const iobuffer: array<char>
    var readVal: nat
    var writeVal: nat
    var count: int                  // iobuffer_count
    var left: bool
    var right: bool
    ghost const initial: seq<char>
    ghost var events: seq<Event>    // what has happened since the start
    ghost var pc: Reader

    ghost predicate Shape()
      reads this
    {
      |initial| == IO_BUFFER_SIZE && iobuffer.Length == IO_BUFFER_SIZE
    }

    /** The history of the driver is a run of the step system. */
    ghost function History(): Trace
      requires Shape()
      reads this
    {
      Run(Start(initial), events)
    }

    ghost function Variables(at: Reader): Kb
      reads this, iobuffer
    {
      Kb(iobuffer[..], readVal, writeVal, count, left, right, at)
    }

    ghost predicate Valid()
      reads this, iobuffer
    {
      Shape() && History().k == Variables(pc)
    }

    constructor (arrivals: seq<seq<nat>>, buffer: array<char>)
      requires buffer.Length == IO_BUFFER_SIZE
      ensures Valid() && events == [] && pc == Wait && iobuffer == buffer
    {
      this.arrivals, clock, iobuffer := arrivals, 0, buffer;
      readVal, writeVal, count, left, right := 0, 0, 0, false, false;
      initial, events, pc := buffer[..], [], Wait;
    }

    method KeyboardHandler(code: nat)
      requires Valid()
      modifies this`writeVal, this`count, this`left, this`right, this`events, iobuffer
      ensures Valid()
      ensures events == old(events) + [Key(code)]
    {
      hide Inv, Start, Run, Step, CharOf;
      ghost var t := History();
      RunOne(Start(initial), events, Key(code));
      HandlerFacts(t, code);
      if code == L_SHIFT_PRESSED {
        left := true;
      } else if code == R_SHIFT_PRESSED {
        right := true;
      } else if code == L_SHIFT_RELEASED {
        left := false;
      } else if code == R_SHIFT_RELEASED {
        right := false;
      } else if code > LAST_KEY {
        // a key release
      } else if count == IO_BUFFER_SIZE {
        // the buffer is full
      } else if left || right {
        PutChar(TABLE_CAPS[code]);
      } else {
        PutChar(TABLE[code]);
      }
      events := events + [Key(code)];
      assert iobuffer[..] == Handle(t.k, code).iobuffer;
    }

    /** iobuffer[write_val++] = c; write_val %= IO_BUFFER_SIZE; iobuffer_count++ */
    method PutChar(c: char)
      requires writeVal < iobuffer.Length
      modifies this`writeVal, this`count, iobuffer
      ensures iobuffer[..] == old(iobuffer[..])[old(writeVal) := c]
      ensures writeVal == (old(writeVal) + 1) % IO_BUFFER_SIZE && count == old(count) + 1
    {
      iobuffer[writeVal] := c;
      writeVal := writeVal + 1;
      writeVal := writeVal % IO_BUFFER_SIZE;
      count := count + 1;
    }

    /** The interrupts that arrive before the next step of the reader. */
    method Interrupts()
      requires Valid()
      modifies this`clock, this`writeVal, this`count, this`left, this`right, this`events, iobuffer
      ensures Valid()
      ensures clock == old(clock) + 1
      ensures events == old(events) + if old(clock) < |arrivals| then KeyEvents(arrivals[old(clock)]) else []
      ensures History().returned == old(History().returned) && count >= old(count)
      ensures old(clock) >= |arrivals| ==> count == old(count)
    {
      hide Inv, Start, Run, Step;
      ghost var es := events;
      if clock < |arrivals| {
        var codes := arrivals[clock];
        var i := 0;
        while i < |codes|
          invariant 0 <= i <= |codes| && Valid() && clock == old(clock)
          invariant events == es + KeyEvents(codes)[..i]
          invariant History().returned == old(History().returned) && count >= old(count)
        {
          RunOne(Start(initial), events, Key(codes[i]));
          KeyReturnsNothing(History(), codes[i]);
          KeyboardHandler(codes[i]);
          assert KeyEvents(codes)[..i + 1] == KeyEvents(codes)[..i] + [Key(codes[i])];
          i := i + 1;
        }
        assert KeyEvents(codes)[..i] == KeyEvents(codes);
      }
      assert es + [] == es;
      clock := clock + 1;
    }

    /** Records that the reader has just taken the step that the variables show. */
    ghost method Stepped(at: Reader)
      requires Shape() && Advance(History().k) == Variables(at)
      modifies this`events, this`pc
      ensures Valid() && pc == at && events == old(events) + [Tick]
      ensures History() == Step(old(History()), Tick)
    {
      hide Inv, Start, Run;
      RunOne(Start(initial), events, Tick);
      TickIsAdvance(History());
      events, pc := events + [Tick], at;
    }

    /**
     kgetc, with the interrupts of each step. It gives up (ok is false) only where the code would wait for
     ever: the count is zero and no more interrupts will come.
     */
    method Kgetc() returns (ok: bool, res: char)
      requires Valid() && pc == Wait
      modifies this, iobuffer
      ensures Valid() && pc == Wait && old(events) <= events
      ensures ok ==> History().returned == old(History().returned) + [res]
      ensures clock > old(clock) && (ok && old(clock) >= |arrivals| ==> count == old(count) - 1)
      ensures !ok ==> History().returned == old(History().returned) && count == 0 && clock >= |arrivals|
    {
      ok := WaitForKey();
      if ok {
        res := TakeChar();
      } else {
        res := '\0';
      }
    }

    /** while (iobuffer_count == 0); */
    method WaitForKey() returns (ok: bool)
      requires Valid() && pc == Wait
      modifies this, iobuffer
      ensures Valid() && old(events) <= events && History().returned == old(History().returned)
      ensures ok ==> pc == LoadIndex
      ensures clock > old(clock) && (old(clock) >= |arrivals| ==> count == old(count))
      ensures !ok ==> pc == Wait && count == 0 && clock >= |arrivals|
    {
      hide Inv, Start, Run;
      Interrupts();
      while count == 0
        invariant Valid() && pc == Wait && old(events) <= events
        invariant History().returned == old(History().returned)
        invariant clock > old(clock) && (old(clock) >= |arrivals| ==> count == old(count))
        decreases |arrivals| - clock
      {
        if clock >= |arrivals| {
          return false;
        }
        Stepped(Wait);
        Interrupts();
      }
      Stepped(LoadIndex);
      ok := true;
    }

    /** res = iobuffer[read_val++]; */
    method ReadSlot() returns (res: char)
      requires Valid() && pc == LoadIndex
      modifies this, iobuffer
      ensures Valid() && pc == LoadBumped(res) && old(events) <= events
      ensures clock > old(clock) && (old(clock) >= |arrivals| ==> count == old(count))
      ensures History().returned == old(History().returned)
    {
      hide Inv, Start, Run, Step;
      Interrupts();
      var i := readVal;
      Boundary(Bump(i));
      readVal := i + 1;
      Boundary(Fetch(i));
      IndexInBuffer(History());
      res := iobuffer[i];
      Boundary(LoadBumped(res));
    }

    /** The rest of kgetc once a character is there: read it, wrap the index, decrement the count. */
    method TakeChar() returns (res: char)
      requires Valid() && pc == LoadIndex
      modifies this, iobuffer
      ensures Valid() && pc == Wait && old(events) <= events
      ensures History().returned == old(History().returned) + [res]
      ensures clock > old(clock) && (old(clock) >= |arrivals| ==> count == old(count) - 1)
    {
      hide Inv, Start, Run, Step;
      res := ReadSlot();
      var i := readVal;
      Boundary(Wrap(res, i));
      readVal := i % IO_BUFFER_SIZE;
      Boundary(LoadCount(res));
      var c := count;
      Boundary(StoreCount(res, c));
      count := c - 1;
      ReturnedChar(History());
      Stepped(Wait);
    }

    /** The reader has taken a step inside kgetc, and the interrupts before its next one arrive. */
    method Boundary(ghost at: Reader)
      requires Shape() && Advance(History().k) == Variables(at) && at != Wait
      modifies this`clock, this`writeVal, this`count, this`left, this`right, this`events, this`pc, iobuffer
      ensures Valid() && pc == at && old(events) <= events
      ensures History().returned == old(History().returned)
      ensures clock > old(clock) && (old(clock) >= |arrivals| ==> count == old(count))
    {
      hide Inv, Start, Run, Step;
      ReturnsNothing(History());
      Stepped(at);
      Interrupts();
    }

    // ----- SYS_read

    /**
     SYS_read. used is what kgetc returned meanwhile; as long as no unread character has been overwritten, and
     so whenever no key ever hit the decrement, it is the next piece of what the handler accepted. The call
     ends at the first moment the edited text has the length asked for; ok is false where it would wait for
     ever.
     */
    method SysRead(fd: int, buffer: array<char>, length: int) returns (r: int, ok: bool, ghost used: string)
      requires Valid() && pc == Wait && length <= buffer.Length && buffer != iobuffer
      modifies this, iobuffer, buffer
      ensures Valid() && pc == Wait
      ensures fd != 0 ==> ok && r == -1 && events == old(events) && buffer[..] == old(buffer[..])
      ensures fd == 0 ==> History().returned == old(History().returned) + used
      ensures fd == 0 && ok ==>
        && r == (if length > 0 then length else 0) && buffer[..r] == Edit(used)
        && forall j | 0 <= j < |used| :: |Edit(used[..j])| < length
      ensures fd == 0 && !ok ==> forall j | 0 <= j <= |used| :: |Edit(used[..j])| < length
      ensures fd == 0 && HitCount(Start(initial), events) == 0 ==> !History().overrun
      ensures fd == 0 && !History().overrun ==> IsNext(History(), used)
    {
      used := "";
      if fd != 0 {
        return -1, true, used;
      }
      assert Edit(used) == "" && Unfinished(used, length);
      hide Inv, Start, Run, HitCount, Edit, Unfinished, IsNext;
      var i := 0;
      while i < length
        invariant Valid() && pc == Wait && 0 <= i && (0 < length ==> i <= length) && (length <= 0 ==> i == 0)
        invariant History().returned == old(History().returned) + used
        invariant i <= buffer.Length && buffer[..i] == Edit(used)
        invariant Unfinished(used, length)
        decreases if clock < |arrivals| then |arrivals| - clock else 0, count
      {
        CountIsNat(History());
        var more, c := Kgetc();
        if !more {
          WaitsFor(used, length);
          NextPiece(initial, events, used);
          return i, false, used;
        }
        UnfinishedSnoc(used, length, c);
        i := EditLine(buffer, i, used, c);
        used := used + [c];
      }
      UnfinishedMeans(used, length);
      NextPiece(initial, events, used);
      return i, true, used;
    }
  }

  /** What SYS_read does with one character. */
  method EditLine(buffer: array<char>, i: nat, ghost used: string, c: char) returns (n: nat)
    requires i < buffer.Length && buffer[..i] == Edit(used)
    modifies buffer
    ensures n <= i + 1 && buffer[..n] == Edit(used + [c])
  {
    EditSnoc(used, c);
    n := i;
    if c == BACKSPACE && n > 0 {
      n := n - 1;
    } else if c != BACKSPACE {
      buffer[n] := c;
      n := n + 1;
    }
  }

  lemma TickIsAdvance(t: Trace)
    requires Inv(t)
    ensures Step(t, Tick).k == Advance(t.k)
  {
  }

  lemma ReturnsNothing(t: Trace)
    requires Inv(t)
    ensures Advance(t.k).pc != Wait ==> Step(t, Tick).returned == t.returned
  {
  }

  lemma ReturnedChar(t: Trace)
    requires Inv(t)
    ensures t.k.pc.StoreCount? ==> Step(t, Tick).returned == t.returned + [t.k.pc.res]
  {
  }

  lemma IndexInBuffer(t: Trace)
    requires Inv(t)
    ensures t.k.pc.Fetch? ==> t.k.pc.i < IO_BUFFER_SIZE
  {
  }

  lemma HandlerFacts(t: Trace, code: nat)
    requires Inv(t)
    ensures t.k.writeVal < IO_BUFFER_SIZE == |t.k.iobuffer|
    ensures Step(t, Key(code)).k == Handle(t.k, code)
    ensures code <= LAST_KEY ==> code < |TABLE| && code < |TABLE_CAPS|
    ensures code <= LAST_KEY ==> CharOf(t.k, code) == if t.k.left || t.k.right then TABLE_CAPS[code] else TABLE[code]
  {
    if code <= LAST_KEY {
      TablesCoverTheKeys(code);
    }
  }

  lemma KeyReturnsNothing(t: Trace, code: nat)
    requires Inv(t)
    ensures Step(t, Key(code)).returned == t.returned && Step(t, Key(code)).k.count >= t.k.count
  {
  }

  // ----- line editing

  /** The text that typing cs leaves: a backspace takes the last character away, if there is one. */
  function Edit(cs: string): string {
    if cs == "" then ""
    else
      var text := Edit(cs[..|cs| - 1]);
      var c := cs[|cs| - 1];
      if c != BACKSPACE then text + [c] else if text == "" then "" else text[..|text| - 1]
  }

  lemma EditSnoc(cs: string, c: char)
    ensures Edit(cs + [c]) ==
            if c != BACKSPACE then Edit(cs) + [c]
            else if Edit(cs) == "" then "" else Edit(cs)[..|Edit(cs)| - 1]
  {
    assert (cs + [c])[..|cs|] == cs;
  }

  /** Before its last character, the text never had the length asked for. */
  ghost predicate Unfinished(used: string, length: int) {
    forall j | 0 <= j < |used| :: |Edit(used[..j])| < length
  }

  lemma UnfinishedMeans(used: string, length: int)
    requires Unfinished(used, length)
    ensures forall j | 0 <= j < |used| :: |Edit(used[..j])| < length
  {
  }

  lemma UnfinishedSnoc(used: string, length: int, c: char)
    requires Unfinished(used, length) && |Edit(used)| < length
    ensures Unfinished(used + [c], length)
  {
    forall j | 0 <= j < |used + [c]|
      ensures |Edit((used + [c])[..j])| < length
    {
      assert (used + [c])[..j] == if j < |used| then used[..j] else used;
    }
  }

  lemma WaitsFor(used: string, length: int)
    requires Unfinished(used, length) && |Edit(used)| < length
    ensures forall j | 0 <= j <= |used| :: |Edit(used[..j])| < length
  {
    assert used[..|used|] == used;
  }

  lemma CountIsNat(t: Trace)
    requires Inv(t)
    ensures 0 <= t.k.count
  {
  }

  /** used is the last piece returned, and the piece of the accepted characters at the same place. */
  ghost predicate IsNext(t: Trace, used: string) {
    |used| <= |t.returned| <= |t.accepted| && used == t.accepted[|t.returned| - |used|..|t.returned|]
  }

  lemma NextPiece(initial: seq<char>, events: seq<Event>, used: string)
    requires |initial| == IO_BUFFER_SIZE
    requires exists before: string :: Run(Start(initial), events).returned == before + used
    ensures HitCount(Start(initial), events) == 0 ==> !Run(Start(initial), events).overrun
    ensures !Run(Start(initial), events).overrun ==> IsNext(Run(Start(initial), events), used)
  {
    CountFallsShortByHits(initial, events);
  }
}
