/** The input side of a connection: command lines and data blocks cut out of a byte stream that
    arrives in arbitrary pieces, through a buffer that is compacted, doubled and shrunk. */
module ConnInput {
  import opened Bytes
  import opened Pieces

  const DATA_BUFFER_SIZE := 2048
  const READ_BUFFER_HIGHWAT := 8192
  const NEWLINE: byte := 10
  const RETURN: byte := 13

  /** What the connection executes. */
  datatype Event = Line(line: seq<byte>) | Block(data: seq<byte>)

  /** What executing the events so far asks for: the next line, a data block of `n` bytes with its
      line end, `n` bytes to be thrown away, or the end. `replied` says whether a reply is sent. */
  datatype Action = Go(replied: bool) | Need(n: nat) | Drop(n: nat) | Close

  type Policy = seq<Event> -> Action

  // ---- The connection as an automaton over single bytes -----------------------------------------

  datatype Mode = Reading(acc: seq<byte>) | Item(left: nat, got: seq<byte>) | Skip(left: nat) | Closed
  datatype Session = Session(hist: seq<Event>, mode: Mode)

  const START := Session([], Reading([]))

  /** A carriage return before the newline is dropped, unless it is all there is. */
  function Strip(line: seq<byte>): seq<byte> {
    if |line| > 1 && line[|line| - 1] == RETURN then line[..|line| - 1] else line
  }

  function AfterLine(policy: Policy, hist: seq<Event>): Mode {
    match policy(hist)
    case Go(_) => Reading([])
    case Need(n) => Item(n + 2, [])
    case Drop(n) => if n == 0 then Reading([]) else Skip(n)
    case Close => Closed
  }

  function AfterBlock(policy: Policy, hist: seq<Event>): Mode {
    if policy(hist) == Close then Closed else Reading([])
  }

  function FeedByte(policy: Policy, s: Session, b: byte): Session {
    match s.mode
    case Reading(acc) =>
      if b == NEWLINE then
        var hist := s.hist + [Line(Strip(acc))];
        Session(hist, AfterLine(policy, hist))
      else s.(mode := Reading(acc + [b]))
    case Item(left, got) =>
      if left <= 1 then
        var hist := s.hist + [Block(got + [b])];
        Session(hist, AfterBlock(policy, hist))
      else s.(mode := Item(left - 1, got + [b]))
    case Skip(left) => s.(mode := if left <= 1 then Reading([]) else Skip(left - 1))
    case Closed => s
  }

  function Feed(policy: Policy, s: Session, bs: seq<byte>): Session
    decreases |bs|
  {
    if bs == [] then s else Feed(policy, FeedByte(policy, s, bs[0]), bs[1..])
  }

  lemma {:induction false} FeedConcat(policy: Policy, s: Session, a: seq<byte>, b: seq<byte>)
    ensures Feed(policy, s, a + b) == Feed(policy, Feed(policy, s, a), b)
    decreases |a|
  {
    hide FeedByte;
    if a == [] {
      assert a + b == b;
    } else {
      assert (a + b)[1..] == a[1..] + b;
      FeedConcat(policy, FeedByte(policy, s, a[0]), a[1..], b);
    }
  }

  lemma {:induction false} FeedPartial(policy: Policy, hist: seq<Event>, acc: seq<byte>, bs: seq<byte>)
    requires NEWLINE !in bs
    ensures Feed(policy, Session(hist, Reading(acc)), bs) == Session(hist, Reading(acc + bs))
    decreases |bs|
  {
    if bs == [] {
      assert acc + bs == acc;
    } else {
      assert acc + [bs[0]] + bs[1..] == acc + bs;
      assert NEWLINE !in bs[1..];
      FeedPartial(policy, hist, acc + [bs[0]], bs[1..]);
    }
  }

  /** A whole line at the head of the input. */
  lemma FeedLine(policy: Policy, hist: seq<Event>, bs: seq<byte>, el: nat)
    requires el < |bs| && bs[el] == NEWLINE && NEWLINE !in bs[..el]
    ensures var hist' := hist + [Line(Strip(bs[..el]))];
      Feed(policy, Session(hist, Reading([])), bs)
      == Feed(policy, Session(hist', AfterLine(policy, hist')), bs[el + 1..])
  {
    var line, rest := bs[..el], bs[el..];
    assert bs == line + rest;
    FeedConcat(policy, Session(hist, Reading([])), line, rest);
    FeedPartial(policy, hist, [], line);
    assert [] + line == line;
    assert rest[0] == NEWLINE && rest[1..] == bs[el + 1..];
  }

  lemma {:induction false} FeedItem(policy: Policy, hist: seq<Event>, left: nat, got: seq<byte>, bs: seq<byte>)
    requires |bs| <= left
    ensures |bs| < left ==>
      Feed(policy, Session(hist, Item(left, got)), bs) == Session(hist, Item(left - |bs|, got + bs))
    ensures 0 < |bs| == left ==>
      var hist' := hist + [Block(got + bs)];
      Feed(policy, Session(hist, Item(left, got)), bs) == Session(hist', AfterBlock(policy, hist'))
    decreases |bs|
  {
    if bs == [] {
      assert got + bs == got;
    } else if left > 1 {
      assert got + [bs[0]] + bs[1..] == got + bs;
      FeedItem(policy, hist, left - 1, got + [bs[0]], bs[1..]);
    } else {
      assert bs == [bs[0]] && bs[1..] == [];
    }
  }

  lemma {:induction false} FeedSkip(policy: Policy, hist: seq<Event>, left: nat, bs: seq<byte>)
    requires |bs| <= left
    ensures Feed(policy, Session(hist, SkipMode(left)), bs) == Session(hist, SkipMode(left - |bs|))
    decreases |bs|
  {
    if bs != [] {
      FeedSkip(policy, hist, left - 1, bs[1..]);
    }
  }

  function SkipMode(left: nat): Mode {
    if left == 0 then Reading([]) else Skip(left)
  }

  lemma {:induction false} FeedClosed(policy: Policy, hist: seq<Event>, bs: seq<byte>)
    ensures Feed(policy, Session(hist, Closed), bs) == Session(hist, Closed)
    decreases |bs|
  {
    if bs != [] { FeedClosed(policy, hist, bs[1..]); }
  }

  // ---- The network ------------------------------------------------------------------------------

  /** The pieces still to arrive; an empty one is a read that would block. */
  type Network = seq<seq<byte>>

  function Work(net: Network): nat {
    if net == [] then 0 else 1 + |net[0]| + Work(net[1..])
  }

  /** One read of at most `max` bytes. */
  method ReadNetwork(net: Network, max: nat) returns (got: seq<byte>, net': Network)
    requires net != [] && max > 0
    ensures |got| <= max && got + Flat(net') == Flat(net) && Work(net') < Work(net)
    ensures got != [] ==> Work(net') + |got| <= Work(net)
  {
    var n := if |net[0]| < max then |net[0]| else max;
    got := net[0][..n];
    if n == 0 || n == |net[0]| {
      net' := net[1..];
    } else {
      net' := [net[0][n..]] + net[1..];
      assert net'[1..] == net[1..];
      assert got + (net[0][n..] + Flat(net[1..])) == net[0] + Flat(net[1..]);
    }
  }

  // ---- The connection ---------------------------------------------------------------------------

  datatype Phase = ReadPhase | NreadPhase | SwallowPhase | ClosingPhase

  /** memmove towards the start of the buffer. */
  method MoveDown(a: array<byte>, from: nat, n: nat)
    requires from + n <= a.Length
    modifies a
    ensures a[..n] == old(a[from..from + n])
  {
    var i := 0;
    while i < n
      invariant 0 <= i <= n
      invariant forall j :: 0 <= j < i ==> a[j] == old(a[from + j])
      invariant forall j :: i <= j < a.Length ==> a[j] == old(a[j])
    {
      a[i] := a[from + i];
      i := i + 1;
    }
  }

  method FindByte(a: array<byte>, from: nat, n: nat, b: byte) returns (el: nat)
    requires from + n <= a.Length
    ensures el <= n && b !in a[from..from + el]
    ensures el < n ==> a[from + el] == b
  {
    el := 0;
    while el < n && a[from + el] != b
      invariant 0 <= el <= n && b !in a[from..from + el]
    {
      assert a[from..from + el + 1] == a[from..from + el] + [a[from + el]];
      el := el + 1;
    }
  }

  lemma LineAhead(policy: Policy, hist: seq<Event>, all: seq<byte>, rest: seq<byte>, el: nat)
    requires el < |all| && all[el] == NEWLINE && NEWLINE !in all[..el]
    ensures var hist' := hist + [Line(Strip(all[..el]))];
      Feed(policy, Session(hist, Reading([])), all + rest)
      == Feed(policy, Session(hist', AfterLine(policy, hist')), all[el + 1..] + rest)
  {
    hide Feed, Strip, AfterLine;
    var bs := all + rest;
    assert bs[..el] == all[..el] && bs[el + 1..] == all[el + 1..] + rest;
    FeedLine(policy, hist, bs, el);
  }

  lemma Received(a: seq<byte>, b: seq<byte>, n: nat, got: seq<byte>)
    requires |a| == |b| && n + |got| <= |a| && b[..n] == a[..n] && b[n..n + |got|] == got[0..0 + |got|]
    ensures b[0..0 + (n + |got|)] == a[0..0 + n] + got
  {
    assert b[..n + |got|] == b[..n] + b[n..n + |got|];
  }

  lemma Regroup(a: seq<byte>, b: seq<byte>, c: seq<byte>)
    ensures (a + b) + c == a + (b + c)
  {
  }

  class Conn {
    const policy: Policy
    var rbuf: array<byte>
    var rcurr: nat
    var rbytes: nat
    var phase: Phase
    var item: array<byte>
    var rlbytes: nat
    var sbytes: nat
    var hist: seq<Event>
    var net: Network

    ghost predicate Valid()
      reads this
    {
      && 0 < rbuf.Length && rcurr + rbytes <= rbuf.Length && rbuf != item
      && rlbytes <= item.Length && (phase == NreadPhase ==> 0 < item.Length)
    }

    /** The automaton's state before the buffered bytes. */
    ghost function Abs(): Session
      reads this, item
      requires Valid()
    {
      match phase
      case ReadPhase => Session(hist, Reading([]))
      case NreadPhase =>
        if rlbytes == 0 then
          var h := hist + [Block(item[..])];
          Session(h, AfterBlock(policy, h))
        else Session(hist, Item(rlbytes, item[..item.Length - rlbytes]))
      case SwallowPhase => Session(hist, SkipMode(sbytes))
      case ClosingPhase => Session(hist, Closed)
    }

    ghost function Buffered(): seq<byte>
      reads this, rbuf
      requires Valid()
    {
      rbuf[rcurr..rcurr + rbytes]
    }

    /** Where the connection will end once everything has arrived. */
    ghost function Outcome(): Session
      reads this, item, rbuf
      requires Valid()
    {
      Feed(policy, Abs(), Buffered() + Flat(net))
    }

    constructor (policy: Policy, net: Network)
      ensures Valid() && fresh(rbuf) && fresh(item) && phase == ReadPhase && this.policy == policy && this.net == net
      ensures Outcome() == Feed(policy, START, Flat(net))
    {
      this.policy, this.net := policy, net;
      rbuf, rcurr, rbytes := new byte[DATA_BUFFER_SIZE], 0, 0;
      item, rlbytes, sbytes := new byte[0], 0, 0;
      phase, hist := ReadPhase, [];
      new;
      assert Buffered() + Flat(net) == Flat(net);
    }

    /** conn_shrink: gives a large, mostly unused buffer back. */
    method Shrink()
      requires Valid()
      modifies this`rbuf, this`rcurr, rbuf
      ensures Valid() && (rbuf == old(rbuf) || fresh(rbuf)) && Buffered() == old(Buffered())
      ensures rbytes < DATA_BUFFER_SIZE ==> rbuf.Length <= READ_BUFFER_HIGHWAT
      ensures old(rbuf.Length) <= READ_BUFFER_HIGHWAT || DATA_BUFFER_SIZE <= rbytes ==> rbuf == old(rbuf)
    {
      if rbuf.Length > READ_BUFFER_HIGHWAT && rbytes < DATA_BUFFER_SIZE {
        if rcurr != 0 {
          MoveDown(rbuf, rcurr, rbytes);
        }
        var newbuf := new byte[DATA_BUFFER_SIZE];
        CopyBytes(rbuf[..], 0, rbytes, newbuf, 0);
        rbuf, rcurr := newbuf, 0;
      }
    }

    /** Doubles a full buffer. */
    method Grow()
      requires Valid() && rcurr == 0
      modifies this`rbuf
      ensures Valid() && fresh(rbuf) && rbuf.Length == 2 * old(rbuf.Length) && Buffered() == old(Buffered())
    {
      var newbuf := new byte[rbuf.Length * 2];
      CopyBytes(rbuf[..], 0, rbytes, newbuf, 0);
      rbuf := newbuf;
    }

    /** Takes the line of `el` bytes and its newline out of the buffer. */
    method TakeLine(el: nat)
      requires Valid() && phase == ReadPhase && el < rbytes
      modifies this`hist, this`rcurr, this`rbytes, rbuf
      ensures Valid() && rbytes == old(rbytes) - (el + 1)
      ensures hist == old(hist) + [Line(Strip(old(Buffered())[..el]))]
      ensures Buffered() == old(Buffered())[el + 1..]
    {
      ghost var all := Buffered();
      var end := if el > 1 && rbuf[rcurr + el - 1] == RETURN then el - 1 else el;
      assert all[..el] == rbuf[rcurr..rcurr + el];
      assert rbuf[rcurr..rcurr + end] == Strip(all[..el]);
      hist := hist + [Line(rbuf[rcurr..rcurr + end])];
      rbuf[rcurr + end] := 0;
      rcurr, rbytes := rcurr + el + 1, rbytes - (el + 1);
    }

    /** try_read_command: executes the line at the head of the buffer, if it is complete. */
    method TryReadCommand() returns (done: bool)
      requires Valid() && phase == ReadPhase
      modifies this, rbuf
      ensures Valid() && (rbuf == old(rbuf) || fresh(rbuf)) && (item == old(item) || fresh(item)) && net == old(net)
      ensures Outcome() == old(Outcome())
      ensures done ==> rbytes < old(rbytes)
      ensures !done ==> phase == ReadPhase && NEWLINE !in Buffered() && hist == old(hist) && rbytes == old(rbytes)
    {
      hide Feed, Strip, AfterLine, AfterBlock;
      var el := FindByte(rbuf, rcurr, rbytes, NEWLINE);
      ghost var all := Buffered();
      if el == rbytes {
        return false;
      }
      assert all[..el] == rbuf[rcurr..rcurr + el] && all[el] == NEWLINE;
      LineAhead(policy, hist, all, Flat(net), el);
      TakeLine(el);
      Enter();
      done := true;
    }

    /** What process_command leaves the connection waiting for. */
    method Enter()
      requires Valid() && phase == ReadPhase
      modifies this`phase, this`item, this`rlbytes, this`sbytes, this`rbuf, this`rcurr, rbuf
      ensures Valid() && (rbuf == old(rbuf) || fresh(rbuf)) && (item == old(item) || fresh(item))
      ensures rbytes == old(rbytes)
      ensures Buffered() == old(Buffered()) && Abs() == Session(hist, AfterLine(policy, hist))
    {
      match policy(hist) {
        case Go(replied) =>
          if replied {
            Shrink();
          }
        case Need(n) =>
          item := new byte[n + 2];
          rlbytes, phase := n + 2, NreadPhase;
          assert item[..0] == [];
        case Drop(n) => sbytes, phase := n, SwallowPhase;
        case Close => phase := ClosingPhase;
      }
    }

    /** Puts what one read returned behind the buffered bytes. */
    method Receive(got: seq<byte>)
      requires Valid() && rcurr == 0 && rbytes + |got| <= rbuf.Length
      modifies this`rbytes, rbuf
      ensures Valid() && Buffered() == old(Buffered()) + got && rbytes == old(rbytes) + |got|
    {
      ghost var a := rbuf[..];
      CopyBytes(got, 0, |got|, rbuf, rbytes);
      Received(a, rbuf[..], rbytes, got);
      rbytes := rbytes + |got|;
    }

    method Compact()
      requires Valid()
      modifies this`rcurr, rbuf
      ensures Valid() && rcurr == 0 && Buffered() == old(Buffered())
    {
      if rcurr != 0 {
        if rbytes != 0 {
          MoveDown(rbuf, rcurr, rbytes);
        }
        rcurr := 0;
      }
    }

    /** One read behind the buffered bytes. */
    method ReadOnce(avail: nat) returns (n: nat)
      requires Valid() && rcurr == 0 && 0 < avail == rbuf.Length - rbytes && net != []
      modifies this`rbytes, this`net, rbuf
      ensures Valid() && n <= avail && Work(net) < old(Work(net))
      ensures Buffered() + Flat(net) == old(Buffered() + Flat(net))
      ensures n == 0 ==> Buffered() == old(Buffered())
    {
      hide Work, Flat;
      var got;
      got, net := ReadNetwork(net, avail);
      n := |got|;
      Regroup(Buffered(), got, Flat(net));
      Receive(got);
      assert n == 0 ==> got == [];
    }

    /** try_read_network: reads until a read returns less than was asked for. */
    method TryReadNetwork() returns (gotdata: bool)
      requires Valid() && phase == ReadPhase
      modifies this`rbuf, this`rcurr, this`rbytes, this`net, rbuf
      ensures Valid() && (rbuf == old(rbuf) || fresh(rbuf))
      ensures Outcome() == old(Outcome())
      ensures Work(net) < old(Work(net)) || (net == [] && !gotdata)
      ensures !gotdata ==> Buffered() == old(Buffered())
    {
      hide Feed, Work, Flat, AfterBlock;
      Compact();
      gotdata := false;
      ghost var all, start := Buffered() + Flat(net), Buffered();
      while net != []
        invariant Valid() && rcurr == 0 && (rbuf == old(rbuf) || fresh(rbuf))
        invariant Buffered() + Flat(net) == all
        invariant Work(net) < old(Work(net)) || (net == old(net) && !gotdata)
        invariant !gotdata ==> Buffered() == start
        decreases Work(net)
      {
        if rbytes >= rbuf.Length {
          Grow();
        }
        var avail := rbuf.Length - rbytes;
        var n := ReadOnce(avail);
        if n == 0 {
          break;
        }
        gotdata := true;
        if n < avail {
          break;
        }
      }
    }

    /** conn_nread with the item complete: it is executed. */
    method CompleteItem()
      requires Valid() && phase == NreadPhase && rlbytes == 0
      modifies this`hist, this`phase, this`rbuf, this`rcurr, rbuf
      ensures Valid() && (rbuf == old(rbuf) || fresh(rbuf)) && rbytes == old(rbytes)
      ensures Outcome() == old(Outcome()) && (phase == ReadPhase || phase == ClosingPhase)
    {
      hide Feed;
      hist := hist + [Block(item[..])];
      if policy(hist) == Close {
        phase := ClosingPhase;
      } else {
        phase := ReadPhase;
        Shrink();
      }
    }

    /** Writes `bs` into the item. */
    method Fill(bs: seq<byte>)
      requires Valid() && phase == NreadPhase && 0 < |bs| <= rlbytes
      modifies this`rlbytes, item
      ensures Valid() && rlbytes == old(rlbytes) - |bs| && Buffered() == old(Buffered())
      ensures Abs() == Feed(policy, old(Abs()), bs)
    {
      ghost var a, done, left := item[..], item.Length - rlbytes, rlbytes;
      CopyBytes(bs, 0, |bs|, item, item.Length - rlbytes);
      Received(a, item[..], done, bs);
      rlbytes := rlbytes - |bs|;
      FeedItem(policy, hist, left, a[..done], bs);
      assert item[..][0..done + |bs|] == item[..done + |bs|] && a[0..done] == a[..done];
      assert rlbytes == 0 ==> item[..] == item[..done + |bs|];
    }

    /** conn_nread: leftovers in the buffer go first. */
    method FillFromBuffer()
      requires Valid() && phase == NreadPhase && 0 < rlbytes && 0 < rbytes
      modifies this`rlbytes, this`rcurr, this`rbytes, item
      ensures Valid() && rbytes < old(rbytes) && Outcome() == old(Outcome())
    {
      hide Feed, AfterBlock;
      var n := if rbytes > rlbytes then rlbytes else rbytes;
      ghost var all, s := Buffered(), Abs();
      var bs := rbuf[rcurr..rcurr + n];
      Fill(bs);
      rcurr, rbytes := rcurr + n, rbytes - n;
      assert Buffered() == all[n..] && bs == all[..n];
      Consumed(policy, s, all, n, Flat(net));
    }

    /** conn_nread: then the socket is read straight into the item. */
    method FillFromNetwork()
      requires Valid() && phase == NreadPhase && 0 < rlbytes && rbytes == 0 && net != []
      modifies this`rlbytes, this`net, item
      ensures Valid() && Work(net) < old(Work(net)) && Outcome() == old(Outcome())
    {
      hide Feed, AfterBlock, Work, Flat;
      ghost var s, before := Abs(), net;
      var got;
      got, net := ReadNetwork(net, rlbytes);
      assert Buffered() == [];
      if got != [] {
        Fill(got);
      }
      ReadThrough(policy, s, got, Flat(net));
      assert Buffered() + Flat(before) == got + Flat(net) && Buffered() + Flat(net) == Flat(net);
    }

    /** conn_swallow: bytes are dropped from the buffer first. */
    method SkipBuffer()
      requires Valid() && phase == SwallowPhase && 0 < sbytes && 0 < rbytes
      modifies this`sbytes, this`rcurr, this`rbytes
      ensures Valid() && rbytes < old(rbytes) && Outcome() == old(Outcome())
    {
      hide Feed, AfterBlock;
      var n := if rbytes > sbytes then sbytes else rbytes;
      ghost var all, s := Buffered(), Abs();
      FeedSkip(policy, hist, sbytes, all[..n]);
      sbytes, rcurr, rbytes := sbytes - n, rcurr + n, rbytes - n;
      assert Buffered() == all[n..];
      Consumed(policy, s, all, n, Flat(net));
    }

    /** conn_swallow: then from the network, into the unused buffer. */
    method SkipNetwork()
      requires Valid() && phase == SwallowPhase && 0 < sbytes && rbytes == 0 && net != []
      modifies this`sbytes, this`net
      ensures Valid() && Work(net) < old(Work(net)) && Outcome() == old(Outcome())
    {
      hide Feed, AfterBlock, Work, Flat;
      ghost var s, before := Abs(), net;
      var got;
      got, net := ReadNetwork(net, if rbuf.Length > sbytes then sbytes else rbuf.Length);
      FeedSkip(policy, hist, sbytes, got);
      sbytes := sbytes - |got|;
      assert Buffered() == [];
      ReadThrough(policy, s, got, Flat(net));
      assert Buffered() + Flat(before) == got + Flat(net) && Buffered() + Flat(net) == Flat(net);
    }

    method EndSwallow()
      requires Valid() && phase == SwallowPhase && sbytes == 0
      modifies this`phase, this`rbuf, this`rcurr, rbuf
      ensures Valid() && (rbuf == old(rbuf) || fresh(rbuf)) && rbytes == old(rbytes)
      ensures Outcome() == old(Outcome()) && phase == ReadPhase
    {
      hide Feed;
      phase := ReadPhase;
      Shrink();
    }

    /** How many steps a phase still needs when no byte is consumed. */
    ghost function Rank(): nat
      reads this
    {
      if phase == NreadPhase || phase == SwallowPhase then 1 else 0
    }

    /** drive_machine until it waits for input that will never come, or closes. */
    method Drive()
      requires Valid()
      modifies this, rbuf, item
      ensures hist == old(Outcome()).hist
    {
      hide Feed, Work, Flat, AfterLine, AfterBlock;
      ghost var goal := Outcome();
      while phase != ClosingPhase
        invariant Valid() && Outcome() == goal && (rbuf == old(rbuf) || fresh(rbuf))
        invariant (item == old(item) || fresh(item))
        decreases Work(net), rbytes, Rank()
      {
        match phase {
          case ReadPhase =>
            var done := TryReadCommand();
            if !done {
              var got := TryReadNetwork();
              if net == [] && !got {
                break;
              }
            }
          case NreadPhase =>
            if rlbytes == 0 {
              CompleteItem();
            } else if rbytes > 0 {
              FillFromBuffer();
            } else if net != [] {
              FillFromNetwork();
            } else {
              break;
            }
          case SwallowPhase =>
            if sbytes == 0 {
              EndSwallow();
            } else if rbytes > 0 {
              SkipBuffer();
            } else if net != [] {
              SkipNetwork();
            } else {
              break;
            }
        }
      }
      assert Flat([]) == [] by { NothingLeft(); }
      Waiting(policy, hist, Abs().mode, Buffered() + Flat(net));
    }
  }

  /** A connection that waits has executed all there is to execute. */
  lemma Waiting(policy: Policy, hist: seq<Event>, mode: Mode, bs: seq<byte>)
    requires mode == Closed || bs == [] || (mode == Reading([]) && NEWLINE !in bs)
    ensures Feed(policy, Session(hist, mode), bs).hist == hist
  {
    if mode == Closed {
      FeedClosed(policy, hist, bs);
    } else if mode == Reading([]) && NEWLINE !in bs {
      FeedPartial(policy, hist, [], bs);
    }
  }

  lemma NothingLeft()
    ensures Flat([]) == []
  {
  }

  lemma ReadThrough(policy: Policy, s: Session, got: seq<byte>, rest: seq<byte>)
    ensures Feed(policy, s, got + rest) == Feed(policy, Feed(policy, s, got), rest)
    ensures got == [] ==> Feed(policy, s, got) == s
  {
    FeedConcat(policy, s, got, rest);
  }

  lemma Consumed(policy: Policy, s: Session, all: seq<byte>, n: nat, rest: seq<byte>)
    requires n <= |all|
    ensures Feed(policy, s, all + rest) == Feed(policy, Feed(policy, s, all[..n]), all[n..] + rest)
  {
    hide Feed;
    assert all + rest == all[..n] + (all[n..] + rest);
    FeedConcat(policy, s, all[..n], all[n..] + rest);
  }

  /** However the stream is cut into pieces, the connection executes the same lines and blocks. */
  method Serve(policy: Policy, net: Network) returns (hist: seq<Event>)
    ensures hist == Feed(policy, START, Flat(net)).hist
  {
    var c := new Conn(policy, net);
    c.Drive();
    hist := c.hist;
  }
}
