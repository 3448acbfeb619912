/**
 * The body of the keyboard-echo program: enable raw mode, echo keys until
 * the quit key, restore the terminal.  The status global is shared: the
 * loop's reads overwrite what enabling stored in it.
 */
module KeyEcho {
  import opened Termios
  import opened Tty
  import opened RawMode
  import opened KeyLoop

  /**
   * Enable raw mode, run the read loop over the outcomes `rs`, and disable
   * raw mode once the loop has stopped.  When the outcomes run out first the
   * program is still in the loop, so the terminal keeps the attributes
   * enabling left (the raw ones if tcsetattr succeeded).  No status
   * is inspected: a failed attribute call is followed by the next step all
   * the same.
   */
  method RunSession(s: RawModeSession, p: Platform, rs: seq<ReadOutcome>)
    returns (lines: seq<string>, quit: bool)
    modifies s, s.term
    ensures quit == Quits(rs)
    ensures lines == Lines(p, rs, Handled(rs))
    ensures s.orig == if s.term.Succeeds(old(s.term.log), TcGetAttr) then old(s.term.attrs) else old(s.orig)
    ensures s.term.log == old(s.term.log)
      + [TcGetAttr, TcSetAttr(TCSAFLUSH, RawFrom(s.orig)), TcGetAttr]
      + (if quit then [TcSetAttr(TCSAFLUSH, s.orig)] else [])
    ensures var restored := s.term.Succeeds(old(s.term.log) + [TcGetAttr, TcSetAttr(TCSAFLUSH, RawFrom(s.orig)), TcGetAttr],
                                            TcSetAttr(TCSAFLUSH, s.orig));
      s.term.attrs == if quit && restored then s.term.keep(s.orig)
                      else RawApplied(s.term, old(s.term.log), old(s.term.attrs), s.orig)
    ensures var restored := s.term.Succeeds(old(s.term.log) + [TcGetAttr, TcSetAttr(TCSAFLUSH, RawFrom(s.orig)), TcGetAttr],
                                            TcSetAttr(TCSAFLUSH, s.orig));
      quit && s.term.Succeeds(old(s.term.log), TcGetAttr) && restored && s.term.keep(s.orig) == s.orig
      ==> s.term.attrs == old(s.term.attrs)
    ensures var requery := s.term.reply(old(s.term.log) + [TcGetAttr, TcSetAttr(TCSAFLUSH, RawFrom(s.orig))], TcGetAttr);
      && s.raw == (if requery == 0 then RawApplied(s.term, old(s.term.log), old(s.term.attrs), s.orig) else RawFrom(s.orig))
      && (|rs| == 0 ==> s.retval == requery)
    ensures |rs| > 0 ==> s.retval == rs[(if quit then QuitRead(rs) else |rs|) - 1].count
  {
    var r := s.EnableRawMode();
    var calls, retval, c;
    lines, quit, calls, retval, c := ReadLoop(p, rs);
    if calls > 0 {
      s.retval := retval;
    }
    if quit {
      r := s.DisableRawMode();
    }
  }
}
