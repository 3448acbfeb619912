/**
 * The terminal attribute record of the keyboard-echo tool and the pure
 * derivation of its raw-mode attributes.
 *
 * The record is the program's own packed 68-byte declaration of `termios`
 * (purebasic.c:120-128): four 64-bit flag words, a 20-slot
 * control-character table and two 64-bit speeds.  Flag words are `bv64`,
 * the bit pattern of the C `integer` (long long) fields; bit values are the
 * macOS ones.
 */
module Termios {

  /** Number of control-character slots (NCCS). */
  const NCCS: nat := 20
  /** Slot of the "minimum bytes before read returns" setting. */
  const VMIN: nat := 16
  /** Slot of the "read timeout in tenths of a second" setting. */
  const VTIME: nat := 17

  /** tcsetattr timing policies. */
  const TCSANOW: int := 0
  const TCSADRAIN: int := 1
  const TCSAFLUSH: int := 2

  // Input flags (c_iflag).
  const BRKINT: bv64 := 0x2
  const INPCK: bv64 := 0x10
  const ISTRIP: bv64 := 0x20
  const ICRNL: bv64 := 0x100
  const IXON: bv64 := 0x200
  // Output flags (c_oflag).
  const OPOST: bv64 := 0x1
  // Control flags (c_cflag): the character-size field and its 8-bit value.
  const CSIZE: bv64 := 0x300
  const CS8: bv64 := 0x300
  // Local flags (c_lflag).
  const ECHO: bv64 := 0x8
  const ISIG: bv64 := 0x80
  const ICANON: bv64 := 0x100
  const IEXTEN: bv64 := 0x400

  /** The bits raw mode turns off in each flag word. */
  const INPUT_RAW_OFF: bv64 := BRKINT | ICRNL | INPCK | ISTRIP | IXON
  const OUTPUT_RAW_OFF: bv64 := OPOST
  const LOCAL_RAW_OFF: bv64 := ECHO | ICANON | IEXTEN | ISIG

  type CcTable = s: seq<bv8> | |s| == NCCS witness seq(NCCS, i => 0 as bv8)

  /** A 64-bit `integer` field of the record, held as its bit pattern. */
  datatype Word = Word(bits: bv64)

  datatype Termios = Termios(
    iflag: Word,
    oflag: Word,
    cflag: Word,
    lflag: Word,
    cc: CcTable,
    ispeed: Word,
    ospeed: Word)

  /** The all-zero record a static variable holds before anything is stored in it. */
  const ZERO: Termios := Termios(Word(0), Word(0), Word(0), Word(0), seq(NCCS, i => 0 as bv8), Word(0), Word(0))

  /**
   * The mask literals of the generated code.  Unary minus on `bv64` is two's
   * complement, the pattern C gives a negative `int` constant once it is
   * converted to a 64-bit `integer` operand.
   */
  const IFLAG_MASK_LITERAL: bv64 := -819
  const OFLAG_MASK_LITERAL: bv64 := -2
  const CFLAG_BITS_LITERAL: bv64 := 768
  const LFLAG_MASK_LITERAL: bv64 := -1417

  /** C's `&` and `|` on a 64-bit field with a literal operand. */
  function BitAnd(w: Word, m: bv64): Word {
    Word(w.bits & m)
  }

  /** `w` with the bits of `mask` turned off. */
  function ClearBits(w: Word, mask: bv64): Word {
    Word(w.bits & !mask)
  }

  /** `w` with the bits of `bits` turned on. */
  function SetBits(w: Word, bits: bv64): Word {
    Word(w.bits | bits)
  }

  /** The literal masks of the generated code are the named flag sets. */
  lemma LiteralMasksAreNamedFlags()
    ensures IFLAG_MASK_LITERAL == !INPUT_RAW_OFF && INPUT_RAW_OFF == 0x332
    ensures OFLAG_MASK_LITERAL == !OUTPUT_RAW_OFF
    ensures CFLAG_BITS_LITERAL == CS8
    ensures LFLAG_MASK_LITERAL == !LOCAL_RAW_OFF && LOCAL_RAW_OFF == 0x588
  {
  }

  /** So ANDing (ORing) a word with a literal clears (sets) the named flags. */
  lemma IflagLiteral(w: Word)
    ensures BitAnd(w, IFLAG_MASK_LITERAL) == ClearBits(w, INPUT_RAW_OFF)
  {
  }

  lemma OflagLiteral(w: Word)
    ensures BitAnd(w, OFLAG_MASK_LITERAL) == ClearBits(w, OUTPUT_RAW_OFF)
  {
  }

  /** ORing is `SetBits` itself, so this one only says that 768 is CS8; it
      stands beside the three masks so that each literal edit has its lemma. */
  lemma CflagLiteral(w: Word)
    ensures SetBits(w, CFLAG_BITS_LITERAL) == SetBits(w, CS8)
  {
  }

  lemma LflagLiteral(w: Word)
    ensures BitAnd(w, LFLAG_MASK_LITERAL) == ClearBits(w, LOCAL_RAW_OFF)
  {
  }

  /** The field edits of the generated code, with its literal masks, derive
      exactly the raw attributes. */
  lemma {:induction false} LiteralEditsAreRawFrom(t: Termios, r: Termios)
    requires r == Termios(
      BitAnd(t.iflag, IFLAG_MASK_LITERAL),
      BitAnd(t.oflag, OFLAG_MASK_LITERAL),
      SetBits(t.cflag, CFLAG_BITS_LITERAL),
      BitAnd(t.lflag, LFLAG_MASK_LITERAL),
      t.cc[VMIN := 0][VTIME := 1],
      t.ispeed,
      t.ospeed)
    ensures r == RawFrom(t)
  {
    IflagLiteral(t.iflag);
    OflagLiteral(t.oflag);
    CflagLiteral(t.cflag);
    LflagLiteral(t.lflag);
  }

  /** `after` is `before` with exactly the bits of `mask` cleared. */
  predicate ClearsExactly(after: Word, before: Word, mask: bv64) {
    after.bits & mask == 0 && after.bits & !mask == before.bits & !mask
  }

  /** `after` is `before` with the bit field `field` holding `value`. */
  predicate SetsField(after: Word, before: Word, field: bv64, value: bv64) {
    after.bits & field == value && after.bits & !field == before.bits & !field
  }

  /** Clearing the bits of a mask clears exactly those bits... */
  lemma ClearBitsClearsExactly(before: Word, mask: bv64)
    ensures ClearsExactly(ClearBits(before, mask), before, mask)
  {
  }

  /** ...and is the only way to do so. */
  lemma ClearsExactlyIsClearBits(after: Word, before: Word, mask: bv64)
    requires ClearsExactly(after, before, mask)
    ensures after == ClearBits(before, mask)
  {
  }

  /** ORing in CS8 makes the size field read CS8 and keeps every other control bit... */
  lemma SetBitsSetsCs8(before: Word)
    ensures SetsField(SetBits(before, CS8), before, CSIZE, CS8)
  {
  }

  /** ...and is the only way to do so. */
  lemma SetsCs8IsSetBits(after: Word, before: Word)
    requires SetsField(after, before, CSIZE, CS8)
    ensures after == SetBits(before, CS8)
  {
  }

  /**
   * Reference definition of raw mode: `r` is the raw configuration derived
   * from `t`, stated field by field as what changes and what does not.
   */
  predicate IsRawOf(r: Termios, t: Termios) {
    && ClearsExactly(r.iflag, t.iflag, INPUT_RAW_OFF)
    && ClearsExactly(r.oflag, t.oflag, OUTPUT_RAW_OFF)
    && SetsField(r.cflag, t.cflag, CSIZE, CS8)
    && ClearsExactly(r.lflag, t.lflag, LOCAL_RAW_OFF)
    && r.cc[VMIN] == 0
    && r.cc[VTIME] == 1
    && (forall i :: 0 <= i < NCCS && i != VMIN && i != VTIME ==> r.cc[i] == t.cc[i])
    && r.ispeed == t.ispeed
    && r.ospeed == t.ospeed
  }

  /**
   * The raw attributes derived from a snapshot, written with the named
   * flags: the raw-mode bits are off, the character size is CS8, reads
   * return after at least 0 bytes or one tenth of a second, and the other
   * control characters and both speeds are the snapshot's.
   */
  function RawFrom(t: Termios): (r: Termios)
    ensures r.iflag.bits & INPUT_RAW_OFF == 0 && r.oflag.bits & OUTPUT_RAW_OFF == 0
    ensures r.cflag.bits & CSIZE == CS8 && r.lflag.bits & LOCAL_RAW_OFF == 0
    ensures r.cc[VMIN] == 0 && r.cc[VTIME] == 1
    ensures forall i :: 0 <= i < NCCS && i != VMIN && i != VTIME ==> r.cc[i] == t.cc[i]
    ensures r.ispeed == t.ispeed && r.ospeed == t.ospeed
  {
    Termios(
      ClearBits(t.iflag, INPUT_RAW_OFF),
      ClearBits(t.oflag, OUTPUT_RAW_OFF),
      SetBits(t.cflag, CS8),
      ClearBits(t.lflag, LOCAL_RAW_OFF),
      t.cc[VMIN := 0][VTIME := 1],
      t.ispeed,
      t.ospeed)
  }

  /** The derivation meets the reference definition. */
  lemma {:induction false} RawFromIsRaw(t: Termios)
    ensures IsRawOf(RawFrom(t), t)
  {
    ClearBitsClearsExactly(t.iflag, INPUT_RAW_OFF);
    ClearBitsClearsExactly(t.oflag, OUTPUT_RAW_OFF);
    SetBitsSetsCs8(t.cflag);
    ClearBitsClearsExactly(t.lflag, LOCAL_RAW_OFF);
  }

  /** The reference definition determines the raw attributes uniquely. */
  lemma {:induction false} RawOfIsUnique(r: Termios, t: Termios)
    requires IsRawOf(r, t)
    ensures r == RawFrom(t)
  {
    ClearsExactlyIsClearBits(r.iflag, t.iflag, INPUT_RAW_OFF);
    ClearsExactlyIsClearBits(r.oflag, t.oflag, OUTPUT_RAW_OFF);
    SetsCs8IsSetBits(r.cflag, t.cflag);
    ClearsExactlyIsClearBits(r.lflag, t.lflag, LOCAL_RAW_OFF);
    assert r.cc == t.cc[VMIN := 0][VTIME := 1];
  }

  /** The settings raw mode exists for: no echo, no line buffering, no signals,
      no output processing, 8-bit characters, reads return after 0.1 s. */
  lemma {:induction false} RawModeSettings(t: Termios)
    ensures RawFrom(t).lflag.bits & (ECHO | ICANON | ISIG | IEXTEN) == 0
    ensures RawFrom(t).oflag.bits & OPOST == 0
    ensures RawFrom(t).iflag.bits & (IXON | ICRNL) == 0
    ensures RawFrom(t).cflag.bits & CSIZE == CS8
    ensures RawFrom(t).cc[VMIN] == 0 && RawFrom(t).cc[VTIME] == 1
  {
    RawFromIsRaw(t);
  }

  /** Deriving raw attributes from raw attributes changes nothing. */
  lemma {:induction false} RawFromIdempotent(t: Termios)
    ensures RawFrom(RawFrom(t)) == RawFrom(t)
  {
    var r := RawFrom(t);
    RawFromIsRaw(t);
    assert IsRawOf(r, r);
    RawOfIsUnique(r, r);
  }
}
