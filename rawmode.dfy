/**
 * EnableRawMode and DisableRawMode over the tool's globals: `orig` (the
 * snapshot taken from the terminal), `raw` (the configuration derived from
 * it) and `retval` (the last status code stored).  Neither procedure looks
 * at a status code, so a failed call is simply followed by the next one.
 */
module RawMode {
  import opened Termios
  import opened Tty

  /**
   * The live attributes once enabling raw mode, started after the calls `h`
   * on a terminal configured as `before`, has tried to apply `RawFrom(orig)`:
   * what the driver keeps of it if that call succeeds, `before` otherwise.
   */
  function RawApplied(term: Terminal, h: seq<Call>, before: Termios, orig: Termios): Termios
  {
    if term.Succeeds(h + [TcGetAttr], TcSetAttr(TCSAFLUSH, RawFrom(orig)))
    then term.keep(RawFrom(orig))
    else before
  }

  class RawModeSession {
    /** The terminal behind descriptor 0; borrowed, never replaced. */
    const term: Terminal
    var orig: Termios
    var raw: Termios
    var retval: int

    /** The globals as the program starts: zero-filled statics. */
    constructor (term: Terminal)
      ensures this.term == term
      ensures orig == ZERO && raw == ZERO && retval == 0
    {
      this.term := term;
      orig := ZERO;
      raw := ZERO;
      retval := 0;
    }

    /**
     * Snapshot the terminal into `orig`, copy it into `raw`, switch the copy to
     * raw mode with the generated code's literal masks, apply it after
     * draining output and flushing input, then re-query into `raw`.  The
     * status of the first query is dropped; the other two land in `retval`.
     * A failed query leaves its target as it was: `orig` keeps its previous
     * value, `raw` keeps the derived attributes.
     */
    method EnableRawMode() returns (r: int)
      modifies this, term
      ensures r == 0
      ensures orig == if term.Succeeds(old(term.log), TcGetAttr) then old(term.attrs) else old(orig)
      ensures term.log == old(term.log) + [TcGetAttr, TcSetAttr(TCSAFLUSH, RawFrom(orig)), TcGetAttr]
      ensures term.attrs == RawApplied(term, old(term.log), old(term.attrs), orig)
      ensures retval == term.reply(old(term.log) + [TcGetAttr, TcSetAttr(TCSAFLUSH, RawFrom(orig))], TcGetAttr)
      ensures raw == if retval == 0 then term.attrs else RawFrom(orig)
    {
      var status;
      orig, status := term.GetAttr(orig);
      CopyAndDerive();
      retval := term.SetAttr(TCSAFLUSH, raw);
      assert term.log == old(term.log) + [TcGetAttr, TcSetAttr(TCSAFLUSH, raw)];
      raw, retval := term.GetAttr(raw);
      r := 0;
    }

    /** `raw = orig` as a 68-byte structure copy, then the raw-mode edits of
        the copy, one field at a time, with the literal masks. */
    method CopyAndDerive()
      modifies this`raw
      ensures raw == RawFrom(orig)
    {
      var t := orig;
      t := t.(iflag := BitAnd(t.iflag, IFLAG_MASK_LITERAL));
      t := t.(oflag := BitAnd(t.oflag, OFLAG_MASK_LITERAL));
      t := t.(cflag := SetBits(t.cflag, CFLAG_BITS_LITERAL));
      t := t.(lflag := BitAnd(t.lflag, LFLAG_MASK_LITERAL));
      t := t.(cc := t.cc[VMIN := 0]);
      t := t.(cc := t.cc[VTIME := 1]);
      LiteralEditsAreRawFrom(orig, t);
      raw := t;
    }

    /** Hand the snapshot back to the terminal, after draining and flushing;
        the status code is dropped, so a failed restore leaves the terminal
        as it was. */
    method DisableRawMode() returns (r: int)
      modifies term
      ensures r == 0
      ensures term.attrs == if term.Succeeds(old(term.log), TcSetAttr(TCSAFLUSH, orig)) then term.keep(orig) else old(term.attrs)
      ensures term.log == old(term.log) + [TcSetAttr(TCSAFLUSH, orig)]
    {
      var status := term.SetAttr(TCSAFLUSH, orig);
      r := 0;
    }
  }

  /**
   * Enable followed at once by disable.  When the snapshot and the restore
   * both succeed, the terminal is left as it was, as long as the driver
   * would keep its starting configuration unchanged (which any driver that
   * stores what it is given does).  When the snapshot fails, the restore
   * hands back whatever `orig` held before.
   */
  method EnableThenDisable(s: RawModeSession)
    modifies s, s.term
    ensures s.orig == if s.term.Succeeds(old(s.term.log), TcGetAttr) then old(s.term.attrs) else old(s.orig)
    ensures s.term.log == old(s.term.log)
      + [TcGetAttr, TcSetAttr(TCSAFLUSH, RawFrom(s.orig)), TcGetAttr, TcSetAttr(TCSAFLUSH, s.orig)]
    ensures var restored := s.term.Succeeds(old(s.term.log) + [TcGetAttr, TcSetAttr(TCSAFLUSH, RawFrom(s.orig)), TcGetAttr],
                                            TcSetAttr(TCSAFLUSH, s.orig));
      s.term.attrs == if restored then s.term.keep(s.orig) else RawApplied(s.term, old(s.term.log), old(s.term.attrs), s.orig)
    ensures && s.term.keep(old(s.term.attrs)) == old(s.term.attrs)
            && s.term.Succeeds(old(s.term.log), TcGetAttr)
            && s.term.Succeeds(old(s.term.log) + [TcGetAttr, TcSetAttr(TCSAFLUSH, RawFrom(s.orig)), TcGetAttr], TcSetAttr(TCSAFLUSH, s.orig))
      ==> s.term.attrs == old(s.term.attrs)
    ensures s.retval == s.term.reply(old(s.term.log) + [TcGetAttr, TcSetAttr(TCSAFLUSH, RawFrom(s.orig))], TcGetAttr)
    ensures s.raw == if s.retval == 0 then RawApplied(s.term, old(s.term.log), old(s.term.attrs), s.orig) else RawFrom(s.orig)
  {
    var r := s.EnableRawMode();
    r := s.DisableRawMode();
  }

  /**
   * On a fresh session, a snapshot query that fails leaves `orig`
   * zero-filled, and the restore then hands the terminal a zero-filled
   * record.
   */
  method FailedSnapshotRestoresZero(term: Terminal) returns (s: RawModeSession)
    requires !term.Succeeds(term.log, TcGetAttr)
    modifies term
    ensures s.term == term && s.orig == ZERO
    ensures term.log == old(term.log)
      + [TcGetAttr, TcSetAttr(TCSAFLUSH, RawFrom(ZERO)), TcGetAttr, TcSetAttr(TCSAFLUSH, ZERO)]
  {
    s := new RawModeSession(term);
    var r := s.EnableRawMode();
    r := s.DisableRawMode();
  }
}
