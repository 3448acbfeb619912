/**
 * The controlling terminal (descriptor 0) as an abstract device.  Its live
 * line-discipline configuration is a field that tcgetattr reads and
 * tcsetattr replaces.  What the driver keeps of a configuration it is given
 * (it may drop unsupported bits) and the status code it reports for each
 * call belong to the platform; they are fixed functions of the device, the
 * status depending on the calls made before.  Status 0 is success; a call
 * that fails has no effect.  Every call is appended to a log, so that the
 * order of configuration changes can be stated.
 */
module Tty {
  import opened Termios

  /** One call made on the terminal's attributes. */
  datatype Call = TcGetAttr | TcSetAttr(action: int, attrs: Termios)

  class Terminal {
    /** The live configuration of the line discipline. */
    var attrs: Termios
    /** The calls made so far, oldest first. */
    var log: seq<Call>
    /** What the driver retains of a configuration handed to tcsetattr. */
    const keep: Termios -> Termios
    /** The status code the platform reports for a call, given the calls before it. */
    const reply: (seq<Call>, Call) -> int

    constructor (initial: Termios, keep: Termios -> Termios, reply: (seq<Call>, Call) -> int)
      ensures attrs == initial && log == []
      ensures this.keep == keep && this.reply == reply
    {
      attrs := initial;
      log := [];
      this.keep := keep;
      this.reply := reply;
    }

    /** Whether the call `c`, made after the calls `before`, succeeds. */
    predicate Succeeds(before: seq<Call>, c: Call)
    {
      reply(before, c) == 0
    }

    /**
     * tcgetattr into a record that holds `into`: on success the record
     * receives the live configuration, on failure it keeps `into`; nothing
     * on the device changes.
     */
    method GetAttr(into: Termios) returns (t: Termios, status: int)
      modifies this`log
      ensures status == reply(old(log), TcGetAttr)
      ensures t == (if status == 0 then attrs else into)
      ensures attrs == old(attrs)
      ensures log == old(log) + [TcGetAttr]
    {
      status := reply(log, TcGetAttr);
      t := if status == 0 then attrs else into;
      log := log + [TcGetAttr];
    }

    /** tcsetattr: on success the driver takes what it keeps of `t` as the
        live configuration; on failure the configuration stays as it was. */
    method SetAttr(action: int, t: Termios) returns (status: int)
      modifies this`attrs, this`log
      ensures status == reply(old(log), TcSetAttr(action, t))
      ensures attrs == (if status == 0 then keep(t) else old(attrs))
      ensures log == old(log) + [TcSetAttr(action, t)]
    {
      status := reply(log, TcSetAttr(action, t));
      if status == 0 {
        attrs := keep(t);
      }
      log := log + [TcSetAttr(action, t)];
    }
  }
}
