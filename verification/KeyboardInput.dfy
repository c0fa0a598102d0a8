/** What the handler accepts, over every run, as a function of the scan codes seen: shift keys, tables, full buffer. */
module KeyboardInput {
  import opened Common
  import opened Keyboard

  /** The two tables, entry by entry. */
  lemma TableEntries()
    ensures |TABLE| == 59
    ensures TABLE[..14] == "**1234567890-=" && TABLE[14] == 8 as char && TABLE[15..28] == "\tqwertyuiop[]"
    ensures TABLE[28..44] == "\n*asdfghjkl;'`*\\" && TABLE[44..55] == "zxcvbnm,./*" && TABLE[55..] == "** *"
  {
    Slices("**1234567890-=", [8 as char], "\tqwertyuiop[]", "\n*asdfghjkl;'`*\\", "zxcvbnm,./*", "** *");
  }

  lemma TableCapsEntries()
    ensures |TABLE_CAPS| == 59
    ensures TABLE_CAPS[..14] == "..!@#$%^&*()_+" && TABLE_CAPS[14] == 8 as char
    ensures TABLE_CAPS[15..28] == "\tQWERTYUIOP{}" && TABLE_CAPS[28..44] == "\n.ASDFGHJKL:\"~.|"
    ensures TABLE_CAPS[44..55] == "ZXCVBNM<>?." && TABLE_CAPS[55..] == ".. ."
  {
    Slices("..!@#$%^&*()_+", [8 as char], "\tQWERTYUIOP{}", "\n.ASDFGHJKL:\"~.|", "ZXCVBNM<>?.", ".. .");
  }

  lemma Slices(a: string, b: string, c: string, d: string, e: string, f: string)
    requires |a| == 14 && |b| == 1 && |c| == 13 && |d| == 16 && |e| == 11 && |f| == 4
    ensures var s := a + b + c + d + e + f;
      && |s| == 59 && s[..14] == a && s[14] == b[0] && s[15..28] == c
      && s[28..44] == d && s[44..55] == e && s[55..] == f
  {
  }

  /** Of the codes press and release, the last one seen is press. */
  ghost predicate Held(es: seq<Event>, press: nat, release: nat) {
    exists i :: 0 <= i < |es| && es[i] == Key(press) && forall j | i < j < |es| :: es[j] != Key(release)
  }

  lemma HeldStep(es: seq<Event>, e: Event, press: nat, release: nat)
    requires press != release
    ensures Held(es + [e], press, release) <==> e == Key(press) || (e != Key(release) && Held(es, press, release))
  {
    var es' := es + [e];
    if e == Key(press) {
      assert es'[|es|] == Key(press);
    } else if e != Key(release) && Held(es, press, release) {
      var i :| 0 <= i < |es| && es[i] == Key(press) && forall j | i < j < |es| :: es[j] != Key(release);
      assert es'[i] == Key(press);
    }
    if Held(es', press, release) && e != Key(press) {
      var i :| 0 <= i < |es'| && es'[i] == Key(press) && forall j | i < j < |es'| :: es'[j] != Key(release);
      assert i < |es| && es'[|es|] == e;
      assert es[i] == Key(press) && forall j | i < j < |es| :: es[j] == es'[j];
    }
  }

  /** In every run, each shift flag is set exactly when its key has been pressed and not released since. */
  lemma {:induction false} ShiftHeld(iobuffer: seq<char>, es: seq<Event>)
    requires |iobuffer| == IO_BUFFER_SIZE
    ensures Run(Start(iobuffer), es).k.left <==> Held(es, 0x2A, 0xAA)
    ensures Run(Start(iobuffer), es).k.right <==> Held(es, 0x36, 0xB6)
    decreases |es|
  {
    if es != [] {
      var init, e := es[..|es| - 1], es[|es| - 1];
      assert es == init + [e];
      hide Inv, Held, Run;
      ShiftHeld(iobuffer, init);
      RunOne(Start(iobuffer), init, e);
      HeldStep(init, e, 0x2A, 0xAA);
      HeldStep(init, e, 0x36, 0xB6);
      ShiftStep(Run(Start(iobuffer), init), e);
    }
  }

  lemma ShiftStep(t: Trace, e: Event)
    requires Inv(t)
    ensures Step(t, e).k.left <==> e == Key(0x2A) || (e != Key(0xAA) && t.k.left)
    ensures Step(t, e).k.right <==> e == Key(0x36) || (e != Key(0xB6) && t.k.right)
  {
    hide CharOf, Fifo;
  }

  /** Is this a code that stands for a character? Shift keys are not, and codes above 0x3A are releases. */
  predicate Character(code: nat) {
    code <= 0x3A && code != 0x2A && code != 0x36
  }

  /**
   Every key, in every run: a code for a character that finds room is accepted as exactly one character, of
   table_caps if a shift key is held by the codes seen so far and of table otherwise. Anything else, and every
   step of the reader, accepts nothing. Room is a count other than 1000.
   */
  lemma KeyAccepted(iobuffer: seq<char>, es: seq<Event>, e: Event)
    requires |iobuffer| == 1000
    ensures var t, t' := Run(Start(iobuffer), es), Run(Start(iobuffer), es + [e]);
      t'.accepted ==
      if e.Key? && Character(e.code) && t.k.count != 1000
      then t.accepted + [if Held(es, 0x2A, 0xAA) || Held(es, 0x36, 0xB6) then TABLE_CAPS[e.code] else TABLE[e.code]]
      else t.accepted
  {
    hide Inv, Held, Run;
    ShiftHeld(iobuffer, es);
    RunOne(Start(iobuffer), es, e);
    AcceptStep(Run(Start(iobuffer), es), e);
  }

  lemma AcceptStep(t: Trace, e: Event)
    requires Inv(t)
    ensures Step(t, e).accepted ==
            if e.Key? && Character(e.code) && t.k.count != 1000
            then t.accepted + [if t.k.left || t.k.right then TABLE_CAPS[e.code] else TABLE[e.code]]
            else t.accepted
  {
    hide Fifo;
  }
}
