/**
 * The read / classify / print / quit loop of the keyboard-echo tool.
 *
 * Each call of `read(0, buf, 1)` is summarised by a `ReadOutcome`: the count
 * it returned and, when that count is 1, the byte it stored in `buf[0]`.  A
 * session is driven by a finite sequence of outcomes, one per read call in
 * order; when the sequence runs out the program is still waiting in a read,
 * so the loop has not stopped.  The character-class test, hexadecimal and
 * character rendering of the runtime are uninterpreted (`Platform`).
 */
module KeyLoop {

  /** `Asc("q")`: the quit key. */
  const QUIT_KEY: bv8 := 0x71
  /** Size of the static read buffer. */
  const BUF_SIZE: nat := 256
  /** The separator between the hex and character renderings. */
  const SEPARATOR: string := " "

  /** What one `read(0, buf, 1)` returned, and the byte it transferred. */
  datatype ReadOutcome = ReadOutcome(count: int, byte: bv8)

  /** A one-byte read stores into the buffer exactly when it returns 1. */
  predicate Transfers(r: ReadOutcome) {
    r.count == 1
  }

  /** The platform services the loop calls: libc's `iscntrl` and the
      runtime's `Hex` and `Chr`. */
  datatype Platform = Platform(iscntrl: bv8 -> int, hex: bv8 -> string, chr: bv8 -> string)

  datatype KeyClass = Control | Printable

  /** A byte is a control byte exactly when `iscntrl` returns 1; any other
      value, nonzero or not, makes it printable. */
  function Classify(p: Platform, b: bv8): (k: KeyClass)
    ensures k == Control <==> p.iscntrl(b) == 1
  {
    if p.iscntrl(b) == 1 then Control else Printable
  }

  /** The line printed for a byte. */
  function Render(p: Platform, b: bv8): (line: string)
    ensures |p.hex(b)| <= |line| && line[..|p.hex(b)|] == p.hex(b)
    ensures Classify(p, b) == Control <==> |line| == |p.hex(b)|
    ensures Classify(p, b) == Printable ==> line[|p.hex(b)|..] == SEPARATOR + p.chr(b)
  {
    match Classify(p, b)
    case Control => p.hex(b)
    case Printable => p.hex(b) + SEPARATOR + p.chr(b)
  }

  /** The byte in `buf[0]` after the first `k` reads: the static buffer
      starts zeroed and only a read that transfers a byte overwrites it. */
  function Stored(rs: seq<ReadOutcome>, k: nat): (b: bv8)
    requires k <= |rs|
    ensures k > 0 && Transfers(rs[k - 1]) ==> b == rs[k - 1].byte
    ensures b == 0 || exists j :: 0 <= j < k && Transfers(rs[j]) && rs[j].byte == b
  {
    if k == 0 then 0
    else if Transfers(rs[k - 1]) then rs[k - 1].byte
    else Stored(rs, k - 1)
  }

  /** Index of the last of the first `k` reads that transferred a byte, or -1. */
  function LastTransfer(rs: seq<ReadOutcome>, k: nat): (j: int)
    requires k <= |rs|
    ensures -1 <= j < k
    ensures j >= 0 ==> Transfers(rs[j])
    ensures forall i :: j < i < k ==> !Transfers(rs[i])
  {
    if k == 0 then -1
    else if Transfers(rs[k - 1]) then k - 1
    else LastTransfer(rs, k - 1)
  }

  /** The buffer holds the byte of the latest transferring read, or its
      initial zero. */
  lemma {:induction false} StoredIsLastTransfer(rs: seq<ReadOutcome>, k: nat)
    requires k <= |rs|
    ensures Stored(rs, k) == (if LastTransfer(rs, k) < 0 then 0 else rs[LastTransfer(rs, k)].byte)
  {
    if k > 0 && !Transfers(rs[k - 1]) {
      StoredIsLastTransfer(rs, k - 1);
    }
  }

  /** The first read number `s >= k` after which `buf[0]` holds the quit key,
      or `|rs| + 1` when there is none. */
  function FirstQuitFrom(rs: seq<ReadOutcome>, k: nat): (s: nat)
    requires k <= |rs| + 1
    ensures k <= s <= |rs| + 1
    ensures s <= |rs| ==> Stored(rs, s) == QUIT_KEY
    ensures forall j :: k <= j < s ==> Stored(rs, j) != QUIT_KEY
    decreases |rs| + 1 - k
  {
    if k == |rs| + 1 then k
    else if Stored(rs, k) == QUIT_KEY then k
    else FirstQuitFrom(rs, k + 1)
  }

  /**
   * The read number at which the loop stops: the stop test first runs after
   * read 2 (the first read in the loop), so it is the first read number
   * from 2 on that leaves the quit key in the buffer; `|rs| + 1` when none
   * does.
   */
  function QuitRead(rs: seq<ReadOutcome>): (s: nat)
    ensures s <= |rs| + 1
    ensures s <= |rs| ==> 2 <= s && Stored(rs, s) == QUIT_KEY
    ensures forall j :: 2 <= j < s ==> Stored(rs, j) != QUIT_KEY
  {
    if |rs| < 2 then |rs| + 1 else FirstQuitFrom(rs, 2)
  }

  /** The loop stops within the given outcomes. */
  predicate Quits(rs: seq<ReadOutcome>) {
    QuitRead(rs) <= |rs|
  }

  /** How many read outcomes the loop body handles (prints or skips): all
      those before the read that stops it, or all of them. */
  function Handled(rs: seq<ReadOutcome>): (m: nat)
    ensures m <= |rs|
    ensures m < |rs| <==> Quits(rs)
    ensures Quits(rs) ==> 1 <= m && m + 1 == QuitRead(rs)
  {
    if Quits(rs) then QuitRead(rs) - 1 else |rs|
  }

  /** The bytes of the first `m` reads that transferred one, in order. */
  function Keys(rs: seq<ReadOutcome>, m: nat): seq<bv8>
    requires m <= |rs|
  {
    if m == 0 then []
    else Keys(rs, m - 1) + (if Transfers(rs[m - 1]) then [rs[m - 1].byte] else [])
  }

  /** The lines printed while handling the first `m` reads: one per read that
      returned 1, none for any other count. */
  function Lines(p: Platform, rs: seq<ReadOutcome>, m: nat): (out: seq<string>)
    requires m <= |rs|
    ensures |out| <= m
  {
    if m == 0 then []
    else Lines(p, rs, m - 1) + (if Transfers(rs[m - 1]) then [Render(p, rs[m - 1].byte)] else [])
  }

  /** A byte is among the keys exactly when some handled read transferred it. */
  lemma {:induction false} KeysAreTransferredBytes(rs: seq<ReadOutcome>, m: nat, b: bv8)
    requires m <= |rs|
    ensures b in Keys(rs, m) <==> exists j :: 0 <= j < m && Transfers(rs[j]) && rs[j].byte == b
  {
    if m > 0 {
      KeysAreTransferredBytes(rs, m - 1, b);
      if Transfers(rs[m - 1]) && rs[m - 1].byte == b {
        assert b in Keys(rs, m);
      }
    }
  }

  /** The output is the rendering of the keys, line for key. */
  lemma {:induction false} LinesRenderKeys(p: Platform, rs: seq<ReadOutcome>, m: nat)
    requires m <= |rs|
    ensures |Lines(p, rs, m)| == |Keys(rs, m)|
    ensures forall i :: 0 <= i < |Keys(rs, m)| ==> Lines(p, rs, m)[i] == Render(p, Keys(rs, m)[i])
  {
    if m > 0 {
      LinesRenderKeys(p, rs, m - 1);
    }
  }

  /** Handling more reads only appends lines. */
  lemma {:induction false} LinesGrow(p: Platform, rs: seq<ReadOutcome>, m: nat, n: nat)
    requires m <= n <= |rs|
    ensures Lines(p, rs, m) <= Lines(p, rs, n)
  {
    if m < n {
      LinesGrow(p, rs, m, n - 1);
    }
  }

  /**
   * When the loop stops, the quit key came from the read that stopped it, or
   * from the read before the loop with nothing transferred in between.
   */
  lemma {:induction false} QuitKeySource(rs: seq<ReadOutcome>)
    requires Quits(rs)
    ensures var j := LastTransfer(rs, QuitRead(rs));
      0 <= j && rs[j].byte == QUIT_KEY && (j == QuitRead(rs) - 1 || j == 0)
  {
    var s := QuitRead(rs);
    var j := LastTransfer(rs, s);
    StoredIsLastTransfer(rs, s);
    if 1 <= j {
      assert Stored(rs, j + 1) == rs[j].byte;
    }
  }

  /**
   * The stopping rule in terms of the reads themselves: the loop stops
   * exactly when a read inside the loop transfers the quit key, or the read
   * before the loop transferred it and the next read transferred nothing.
   */
  lemma {:induction false} QuitsIff(rs: seq<ReadOutcome>)
    ensures Quits(rs) <==>
      (exists j :: 1 <= j < |rs| && Transfers(rs[j]) && rs[j].byte == QUIT_KEY)
      || (|rs| >= 2 && Transfers(rs[0]) && rs[0].byte == QUIT_KEY && !Transfers(rs[1]))
  {
    if Quits(rs) {
      QuitKeySource(rs);
      var s := QuitRead(rs);
      var j := LastTransfer(rs, s);
      if j == 0 && s - 1 != 0 {
        assert !Transfers(rs[1]);
      } else {
        assert 1 <= j < |rs| && Transfers(rs[j]) && rs[j].byte == QUIT_KEY;
      }
    }
    if exists j :: 1 <= j < |rs| && Transfers(rs[j]) && rs[j].byte == QUIT_KEY {
      var j :| 1 <= j < |rs| && Transfers(rs[j]) && rs[j].byte == QUIT_KEY;
      assert Stored(rs, j + 1) == QUIT_KEY;
    }
    if |rs| >= 2 && Transfers(rs[0]) && rs[0].byte == QUIT_KEY && !Transfers(rs[1]) {
      assert Stored(rs, 2) == QUIT_KEY;
    }
  }

  /** Reads that never transfer the quit key never stop the loop, however many. */
  lemma {:induction false} NoQuitKeyNoQuit(rs: seq<ReadOutcome>)
    requires forall j :: 0 <= j < |rs| && Transfers(rs[j]) ==> rs[j].byte != QUIT_KEY
    ensures !Quits(rs)
    ensures Handled(rs) == |rs|
  {
    QuitsIff(rs);
  }

  /** The byte of the read before the loop is always handled, even the quit key. */
  lemma {:induction false} FirstKeyPrinted(p: Platform, rs: seq<ReadOutcome>)
    requires |rs| >= 1 && Transfers(rs[0])
    ensures Handled(rs) >= 1
    ensures |Lines(p, rs, Handled(rs))| >= 1 && Lines(p, rs, Handled(rs))[0] == Render(p, rs[0].byte)
  {
    LinesGrow(p, rs, 1, Handled(rs));
  }

  /** The quit key that stops the loop is never printed: the output is that
      of the reads before it. */
  lemma {:induction false} QuitKeyNotPrinted(p: Platform, rs: seq<ReadOutcome>)
    requires Quits(rs)
    ensures Lines(p, rs, Handled(rs)) == Lines(p, rs[..QuitRead(rs) - 1], QuitRead(rs) - 1)
  {
    LinesOfPrefix(p, rs, QuitRead(rs) - 1, QuitRead(rs) - 1);
  }

  /** The lines of the first `m` reads depend on those reads only. */
  lemma {:induction false} LinesOfPrefix(p: Platform, rs: seq<ReadOutcome>, n: nat, m: nat)
    requires m <= n <= |rs|
    ensures Lines(p, rs, m) == Lines(p, rs[..n], m)
  {
    if m > 0 {
      LinesOfPrefix(p, rs, n, m - 1);
    }
  }

  /** A read that transfers nothing prints nothing and leaves the buffer as it was. */
  lemma ShortReadChangesNothing(p: Platform, rs: seq<ReadOutcome>, k: nat)
    requires k < |rs| && !Transfers(rs[k])
    ensures Stored(rs, k + 1) == Stored(rs, k)
    ensures Lines(p, rs, k + 1) == Lines(p, rs, k)
  {
  }

  /** An `iscntrl` that holds for the C locale's control bytes: below 0x20, and DEL. */
  ghost predicate CLocaleIscntrl(p: Platform) {
    forall b: bv8 :: p.iscntrl(b) == (if b < 0x20 || b == 0x7f then 1 else 0)
  }

  /** Under that `iscntrl`, a control byte prints as its hex digits alone... */
  lemma ControlByteRendersAsHex(p: Platform, b: bv8)
    requires CLocaleIscntrl(p)
    requires b < 0x20 || b == 0x7f
    ensures Render(p, b) == p.hex(b)
  {
  }

  /** ...and a printable byte as its hex digits, a space and the character. */
  lemma PrintableByteRendersWithChar(p: Platform, b: bv8)
    requires CLocaleIscntrl(p)
    requires 0x20 <= b <= 0x7e
    ensures Render(p, b) == p.hex(b) + " " + p.chr(b)
  {
  }

  /** Typing "A" then "q": one line, "41 A", and the loop stops. */
  lemma {:induction false} TypingAThenQ(p: Platform)
    requires p.iscntrl(0x41) != 1 && p.hex(0x41) == "41" && p.chr(0x41) == "A"
    ensures var rs := [ReadOutcome(1, 0x41), ReadOutcome(1, QUIT_KEY)];
      Quits(rs) && Lines(p, rs, Handled(rs)) == ["41 A"]
  {
    var rs := [ReadOutcome(1, 0x41), ReadOutcome(1, QUIT_KEY)];
    assert Stored(rs, 2) == QUIT_KEY;
    assert Lines(p, rs, 1) == [Render(p, 0x41)];
    assert Render(p, 0x41) == "41" + SEPARATOR + "A" == "41 A";
  }

  /** Typing Ctrl-C then "q": one line, "3"; Ctrl-C is just another byte. */
  lemma {:induction false} TypingCtrlCThenQ(p: Platform)
    requires p.iscntrl(0x03) == 1 && p.hex(0x03) == "3"
    ensures var rs := [ReadOutcome(1, 0x03), ReadOutcome(1, QUIT_KEY)];
      Quits(rs) && Lines(p, rs, Handled(rs)) == ["3"]
  {
    var rs := [ReadOutcome(1, 0x03), ReadOutcome(1, QUIT_KEY)];
    assert Stored(rs, 2) == QUIT_KEY;
    assert Lines(p, rs, 1) == [Render(p, 0x03)];
  }

  /** A first key "q" is printed, and stops the loop when the next read
      times out: the stop test sees the byte left in the buffer. */
  lemma {:induction false} FirstQThenTimeout(p: Platform, n: int, x: bv8)
    requires n != 1
    ensures var rs := [ReadOutcome(1, QUIT_KEY), ReadOutcome(n, x)];
      Quits(rs) && QuitRead(rs) == 2 && Lines(p, rs, Handled(rs)) == [Render(p, QUIT_KEY)]
  {
    var rs := [ReadOutcome(1, QUIT_KEY), ReadOutcome(n, x)];
    assert Stored(rs, 2) == QUIT_KEY;
    assert Lines(p, rs, 1) == [Render(p, QUIT_KEY)];
  }

  /** A first key "q" followed at once by another key does not stop the loop:
      both keys are printed and the loop reads on. */
  lemma {:induction false} FirstQThenKey(p: Platform, x: bv8)
    requires x != QUIT_KEY
    ensures var rs := [ReadOutcome(1, QUIT_KEY), ReadOutcome(1, x)];
      !Quits(rs) && Lines(p, rs, Handled(rs)) == [Render(p, QUIT_KEY), Render(p, x)]
  {
    var rs := [ReadOutcome(1, QUIT_KEY), ReadOutcome(1, x)];
    assert Stored(rs, 2) == x;
    assert Lines(p, rs, 1) == [Render(p, QUIT_KEY)];
  }

  /** One `read(0, buf, 1)`: returns the count and, when one byte was
      transferred, stores it in `buf[0]`. */
  method ReadInto(buf: array<bv8>, r: ReadOutcome) returns (count: int)
    requires buf.Length == BUF_SIZE
    modifies buf
    ensures count == r.count
    ensures buf[0] == (if Transfers(r) then r.byte else old(buf[0]))
    ensures forall i :: 1 <= i < buf.Length ==> buf[i] == old(buf[i])
  {
    count := r.count;
    if Transfers(r) {
      buf[0] := r.byte;
    }
  }

  /**
   * The body of `main` between enabling and disabling raw mode.  One read
   * before the loop; each pass prints the current byte if the last read
   * returned 1, reads again, reloads `c` from the buffer and stops when `c`
   * is the quit key.  Returns the printed lines, whether the loop stopped,
   * the number of reads made, the last read's count and the final `c`.
   */
  method ReadLoop(p: Platform, rs: seq<ReadOutcome>)
    returns (lines: seq<string>, quit: bool, calls: nat, retval: int, c: bv8)
    ensures quit == Quits(rs)
    ensures calls == (if quit then QuitRead(rs) else |rs|)
    ensures lines == Lines(p, rs, Handled(rs))
    ensures c == Stored(rs, calls)
    ensures quit ==> c == QUIT_KEY
    ensures calls > 0 ==> retval == rs[calls - 1].count
  {
    var buf := new bv8[BUF_SIZE](_ => 0);
    lines, quit, calls, retval := [], false, 0, 0;
    c := 0;
    if |rs| == 0 {
      return;
    }
    retval := ReadInto(buf, rs[0]);
    calls := 1;
    c := buf[0];
    while calls == 1 || c != QUIT_KEY
      invariant 1 <= calls <= |rs|
      invariant c == buf[0] == Stored(rs, calls)
      invariant retval == rs[calls - 1].count
      invariant calls <= QuitRead(rs)
      invariant calls == QuitRead(rs) <==> calls >= 2 && c == QUIT_KEY
      invariant lines == Lines(p, rs, calls - 1)
      decreases |rs| - calls
    {
      if retval == 1 {
        if p.iscntrl(c) == 1 {
          lines := lines + [p.hex(c)];
        } else {
          lines := lines + [p.hex(c) + SEPARATOR + p.chr(c)];
        }
      }
      if calls == |rs| {
        return;
      }
      retval := ReadInto(buf, rs[calls]);
      calls := calls + 1;
      c := buf[0];
    }
    quit := true;
  }
}
