/** The output side of a connection: replies are queued as scatter lists in messages and leave in
    partial sends. */
module ConnOutput {
  import opened Bytes
  import opened Pieces

  const MAX_PAYLOAD_SIZE := 1400
  const IOV_MAX := 1024
  const IOV_LIST_INITIAL := 400
  const MSG_LIST_INITIAL := 10

  /** A message points at `len` entries from `first` on of the entry list with number `list`; a
      list that was reallocated has a new number. */
  datatype Msg = Msg(list: nat, first: nat, len: nat)

  datatype Sent = Complete | Incomplete | SoftError | HardError

  /** Messages lie one behind the other in the current list, none of them too long. */
  ghost predicate Chained(msgs: seq<Msg>, list: nat, used: nat) {
    && (forall i :: 0 <= i < |msgs| ==>
      msgs[i].list == list && msgs[i].len <= IOV_MAX && msgs[i].first + msgs[i].len <= used)
    && (forall i :: 0 < i < |msgs| ==> msgs[i].first == msgs[i - 1].first + msgs[i - 1].len)
    && (|msgs| > 0 ==> msgs[0].first == 0 && msgs[|msgs| - 1].first + msgs[|msgs| - 1].len == used)
  }

  class Output {
    var list: nat
    var iov: seq<seq<byte>>
    var iovused: nat
    var msglist: seq<Msg>
    var msgused: nat
    var msgbytes: nat
    var msgcurr: nat
    var sent: seq<byte>

    ghost predicate Shape()
      reads this
    {
      iovused <= |iov| && 0 < |iov| && msgused <= |msglist| && 0 < |msglist|
    }

    ghost predicate Valid()
      reads this
    {
      && Shape() && 0 < msgused && Chained(msglist[..msgused], list, iovused)
      && msgbytes == |Flat(iov[msglist[msgused - 1].first..iovused])|
      && |Flat(iov[..msglist[0].len])| <= MAX_PAYLOAD_SIZE
    }

    /** No entry is empty, and no message but the first and the one with number `last`. */
    ghost predicate SolidBut(last: nat)
      reads this
    {
      && iovused <= |iov| && msgused <= |msglist|
      && (forall j :: 0 <= j < iovused ==> iov[j] != [])
      && (forall i :: 0 < i < msgused && i != last ==> 0 < msglist[i].len)
    }

    ghost predicate Solid()
      reads this
    {
      SolidBut(0)
    }

    /** All bytes queued so far. */
    ghost function Queue(): seq<byte>
      reads this
      requires Shape()
    {
      Flat(iov[..iovused])
    }

    constructor ()
      ensures Valid() && Solid() && Queue() == [] && msgcurr == 0 && sent == []
    {
      list, iov, iovused := 0, seq(IOV_LIST_INITIAL, i => []), 0;
      msglist := seq(MSG_LIST_INITIAL, i => Msg(0, 0, 0));
      msgused, msgbytes, msgcurr, sent := 1, 0, 0, [];
    }

    /** add_msghdr: the list of messages doubles when it is full. */
    method AddMsghdr(memory: bool) returns (ok: bool)
      requires Valid()
      modifies this`msglist, this`msgused, this`msgbytes
      ensures memory ==> ok
      ensures Shape() && Queue() == old(Queue())
      ensures ok ==> Valid() && msgused == old(msgused) + 1 && msgbytes == 0 && msglist[msgused - 1].len == 0
      ensures !ok ==> Valid() && msgused == old(msgused)
      ensures ok && old(Solid()) ==> SolidBut(msgused - 1)
    {
      hide Flat, Chained;
      ghost var was := msglist[..msgused];
      if |msglist| == msgused {
        if !memory {
          return false;
        }
        msglist := msglist + seq(msgused, i => Msg(0, 0, 0));
      }
      msglist := msglist[msgused := Msg(list, iovused, 0)];
      msgbytes, msgused := 0, msgused + 1;
      assert msglist[..msgused] == was + [Msg(list, iovused, 0)];
      ChainedNew(was, list, iovused);
      assert iov[iovused..iovused] == [];
      FlatNone();
      ok := true;
    }

    /** Points all messages at the list with the current number, counting entries. */
    method Repoint()
      requires msgused <= |msglist| && exists list, used :: Chained(msglist[..msgused], list, used)
      modifies this`msglist
      ensures |msglist| == old(|msglist|)
      ensures forall i :: 0 <= i < msgused ==> msglist[i] == old(msglist)[i].(list := list)
    {
      ghost var was := msglist;
      ghost var oldList, used :| Chained(msglist[..msgused], oldList, used);
      var i, iovnum := 0, 0;
      while i < msgused
        invariant 0 <= i <= msgused && |msglist| == |was|
        invariant iovnum == if i == 0 then 0 else was[i - 1].first + was[i - 1].len
        invariant forall j :: 0 <= j < i ==> msglist[j] == was[j].(list := list)
        invariant forall j :: i <= j < |msglist| ==> msglist[j] == was[j]
      {
        assert was[..msgused][i] == was[i] && (i > 0 ==> was[..msgused][i - 1] == was[i - 1]);
        msglist := msglist[i := msglist[i].(list := list, first := iovnum)];
        iovnum := iovnum + msglist[i].len;
        i := i + 1;
      }
    }

    /** ensure_iov_space: the entry list doubles, and every message is pointed at the new one. */
    method EnsureIovSpace(memory: bool) returns (ok: bool)
      requires Valid()
      modifies this`iov, this`list, this`msglist
      ensures memory ==> ok
      ensures Valid() && iov[..iovused] == old(iov[..iovused]) && |msglist| == old(|msglist|)
      ensures forall i :: 0 <= i < msgused ==> msglist[i] == old(msglist)[i].(list := list)
      ensures ok ==> iovused < |iov|
      ensures old(SolidBut(msgused - 1)) ==> SolidBut(msgused - 1)
    {
      hide Chained, Flat;
      ok := true;
      ChainedList(msglist, msgused, list, iovused);
      if iovused >= |iov| {
        if !memory {
          return false;
        }
        ghost var was, msgs, before := iov, msglist[..msgused], list;
        iov := iov + seq(|iov|, i => []);
        list := list + 1;
        Repoint();
        ChainedAgain(msgs, before, msglist[..msgused], list, iovused);
        ChainedInside(msgs, before, iovused);
        assert msglist[msgused - 1].first == msgs[msgused - 1].first && msglist[0].len == msgs[0].len;
        SameSlice(was, iov, iovused, msglist[msgused - 1].first, iovused);
        SameSlice(was, iov, iovused, 0, msglist[0].len);
        SameSlice(was, iov, iovused, 0, iovused);
      }
    }

    /** The rest of an add_iov round: one entry is appended to the last message. */
    method AddEntry(piece: seq<byte>)
      requires Valid() && iovused < |iov| && msglist[msgused - 1].len < IOV_MAX
      requires msgused == 1 ==> msgbytes + |piece| <= MAX_PAYLOAD_SIZE
      modifies this`iov, this`msglist, this`iovused, this`msgbytes
      ensures Valid() && Queue() == old(Queue()) + piece
      ensures piece != [] && old(SolidBut(msgused - 1)) ==> Solid()
    {
      hide Flat;
      ghost var was, msgs, used := iov, msglist, iovused;
      var m := msglist[msgused - 1];
      ChainedEnd(msgs, msgused, list, used);
      iov := iov[m.first + m.len := piece];
      msgbytes, iovused := msgbytes + |piece|, iovused + 1;
      msglist := msglist[msgused - 1 := m.(len := m.len + 1)];
      ChainedMore(msgs[..msgused], list, used, msglist[..msgused]);
      Appended(was, iov, used, piece, m.first);
      Appended(was, iov, used, piece, 0);
      assert was[0..used] == was[..used] && iov[0..iovused] == iov[..iovused];
      if msgused > 1 {
        FirstApart(msgs[..msgused], list, used, msgused - 1);
        assert iov[..msglist[0].len] == was[..msglist[0].len];
      } else {
        assert m.first == 0;
      }
    }

    /** add_iov: the buffer is cut where the first message is full. Without memory for a list to
        grow, a front part of the buffer has been queued. */
    method AddIov(buf: seq<byte>, memory: bool) returns (ok: bool)
      requires Valid()
      modifies this`list, this`iov, this`iovused, this`msglist, this`msgused, this`msgbytes
      ensures memory ==> ok
      ensures Valid() && (ok ==> Queue() == old(Queue()) + buf)
      ensures ok && buf != [] && old(Solid()) ==> Solid()
      ensures exists n :: 0 <= n <= |buf| && Queue() == old(Queue()) + buf[..n]
    {
      hide Flat, Chained;
      var at := 0;
      ghost var start := Queue();
      assert start + buf[..0] == start;
      var more := true;
      while more
        invariant Valid() && 0 <= at <= |buf| && (more || at == |buf|) && Queue() == start + buf[..at]
        invariant more && buf != [] ==> at < |buf|
        invariant buf != [] && old(Solid()) ==> Solid()
        decreases if more then 1 else 0, |buf| - at
      {
        var m := msglist[msgused - 1];
        var limit := msgused == 1;
        ok := true;
        if m.len == IOV_MAX || (limit && msgbytes >= MAX_PAYLOAD_SIZE) {
          ok := AddMsghdr(memory);
          if !ok {
            return;
          }
        }
        ok := EnsureIovSpace(memory);
        if !ok {
          return;
        }
        ChainedEnd(msglist, msgused, list, iovused);
        var len := |buf| - at;
        var leftover := if limit && len + msgbytes > MAX_PAYLOAD_SIZE then len + msgbytes - MAX_PAYLOAD_SIZE else 0;
        var n := len - leftover;
        AddEntry(buf[at..at + n]);
        Cut(start, buf, at, n);
        at := at + n;
        more := leftover > 0;
      }
      ok := true;
      assert buf[..at] == buf;
    }

    // ---- Sending -------------------------------------------------------------------------------

    ghost predicate Sending()
      reads this
    {
      msgcurr <= msgused <= |msglist| && Apart(iov, msglist[..msgused], list, msgcurr)
    }

    /** The bytes not yet sent. */
    ghost function Pending(): seq<byte>
      reads this
      requires Sending()
    {
      Unsent(iov, msglist[..msgused], list, msgcurr)
    }

    ghost predicate Dense()
      reads this
    {
      msgused <= |msglist| && DenseFrom(iov, msglist[..msgused], msgcurr)
    }

    /** The bytes of the message that the next send works on. */
    ghost function Next(): seq<byte>
      reads this
      requires Sending()
    {
      var i := if msgcurr < msgused && msglist[msgcurr].len == 0 then msgcurr + 1 else msgcurr;
      if i < msgused then Held(iov, msglist[..msgused][i]) else []
    }

    /** transmit, where `res` is what sendmsg returned: the number of leading bytes of the message
        it took, or not positive. `blocked` tells a full socket from a broken one. */
    method Transmit(res: int, blocked: bool) returns (r: Sent)
      requires Sending() && res <= |Next()|
      modifies this`iov, this`msglist, this`msgcurr, this`sent
      ensures Sending() && sent + Pending() == old(sent + Pending())
      ensures r == Complete ==> Pending() == [] && sent == old(sent)
      ensures r == Incomplete ==> res > 0 && |sent| == old(|sent|) + res
      ensures r == SoftError || r == HardError ==> res <= 0 && sent == old(sent)
      ensures r == SoftError ==> res == -1 && blocked
      ensures r == HardError ==> !(res == -1 && blocked)
      ensures res > 0 ==> r == Incomplete
      ensures old(Dense()) ==> Dense() && (old(Pending()) == [] ==> r == Complete)
    {
      hide Held, Apart, Flat, DenseFrom;
      if Dense() {
        DenseEnds(iov, msglist[..msgused], list, msgcurr);
        if msgcurr < msgused { DenseSkip(iov, msglist[..msgused], msgcurr); }
      }
      if msgcurr < msgused && msglist[msgcurr].len == 0 {
        SkipDone(iov, msglist[..msgused], list, msgcurr);
        msgcurr := msgcurr + 1;
      }
      NothingUnsent(iov, msglist[..msgused], list);
      if msgcurr == msgused {
        return Complete;
      }
      if res > 0 {
        Send(res);
        return Incomplete;
      }
      return if res == -1 && blocked then SoftError else HardError;
    }

    /** After the last add_iov the queue is what is to be sent. */
    lemma StartSending()
      requires Valid() && msgcurr == 0
      ensures Sending() && Pending() == Queue()
      ensures Solid() ==> Dense()
    {
      hide Apart, Unsent;
      ChainUnsent(iov, msglist[..msgused], list, iovused, 0);
      ChainedEnd(msglist, msgused, list, iovused);
      assert iov[0..iovused] == iov[..iovused];
    }

    /** The number of bytes the next sendmsg is asked to take. */
    method NextSize() returns (n: nat)
      requires Sending()
      ensures n == |Next()| && (Dense() && Pending() != [] ==> 0 < n)
    {
      hide Apart, Held, DenseFrom;
      if Dense() { DenseEnds(iov, msglist[..msgused], list, msgcurr); }
      var i := if msgcurr < msgused && msglist[msgcurr].len == 0 then msgcurr + 1 else msgcurr;
      n := if i < msgused then |Held(iov, msglist[i])| else 0;
    }

    /** Transmits as long as results of sendmsg come in; none takes more than it was given. */
    method SendAll(results: seq<int>, blocked: bool) returns (out: seq<byte>, queued: seq<byte>, r: Sent)
      requires Sending()
      modifies this`iov, this`msglist, this`msgcurr, this`sent
      ensures out + queued == old(sent + Pending()) && (r == Complete ==> queued == [])
      ensures old(Dense() && |Pending()| < |results|) && (forall i :: 0 <= i < |results| ==> 0 < results[i]) ==>
        r == Complete
    {
      hide Apart, Held, Unsent, DenseFrom;
      ghost var all := sent + Pending();
      ghost var eager := Dense() && forall j :: 0 <= j < |results| ==> 0 < results[j];
      r := Incomplete;
      var i := 0;
      while i < |results| && (r == Incomplete || r == SoftError)
        invariant 0 <= i <= |results| && Sending() && sent + Pending() == all && (r == Complete ==> Pending() == [])
        invariant eager ==> Dense() && (r == Complete || (r == Incomplete && i <= |sent| - |old(sent)|))
      {
        var n := NextSize();
        r := Transmit(if results[i] < n then results[i] else n, blocked);
        i := i + 1;
      }
      out := sent;
      queued := Rest();
    }

    method Rest() returns (bs: seq<byte>)
      requires Sending()
      ensures bs == Pending()
    {
      hide Apart, Held;
      bs := [];
      var i := msgused;
      NothingUnsent(iov, msglist[..msgused], list);
      while i > msgcurr
        invariant msgcurr <= i <= msgused && Apart(iov, msglist[..msgused], list, i)
        invariant bs == Unsent(iov, msglist[..msgused], list, i)
      {
        i := i - 1;
        ApartFrom(iov, msglist[..msgused], list, msgcurr, i);
        bs := Held(iov, msglist[i]) + bs;
      }
    }

    /** The socket takes `res` bytes; finished entries leave the message, an unfinished one shrinks. */
    method Send(res: nat)
      requires Sending() && msgcurr < msgused && 0 < res <= |Held(iov, msglist[..msgused][msgcurr])|
      modifies this`iov, this`msglist, this`sent
      ensures Sending() && sent + Pending() == old(sent + Pending()) && |sent| == old(|sent|) + res
      ensures old(Dense()) ==> Dense()
    {
      hide Apart, Held, Unsent;
      ghost var msgs, was, before := msglist[..msgused], iov, sent;
      assert msgs[msgcurr] == msglist[msgcurr];
      ApartInside(iov, msgs, list, msgcurr, msgcurr);
      ghost var all := Held(iov, msgs[msgcurr]);
      sent := sent + Held(iov, msglist[msgcurr])[..res];
      var m;
      iov, m := Advance(iov, msglist[msgcurr], res);
      msglist := msglist[msgcurr := m];
      assert msglist[..msgused] == msgs[msgcurr := m];
      SentSome(was, iov, msgs, list, msgcurr, m, all, res);
      Regroup(before, all[..res], all[res..], Unsent(was, msgs, list, msgcurr + 1));
      assert all[..res] + all[res..] == all;
      DenseSent(was, iov, msgs, list, msgcurr, m);
    }
  }

  /** Removes `res` bytes from the front of a message. */
  method Advance(iov: seq<seq<byte>>, m: Msg, res: nat) returns (iov': seq<seq<byte>>, m': Msg)
    requires m.first + m.len <= |iov| && res <= |Held(iov, m)|
    ensures m'.list == m.list && m.first <= m'.first && m'.first + m'.len == m.first + m.len && |iov'| == |iov|
    ensures Held(iov', m') == Held(iov, m)[res..]
    ensures forall j :: m.first + m.len <= j < |iov| ==> iov'[j] == iov[j]
    ensures NoneEmpty(iov, m) ==> NoneEmpty(iov', m')
  {
    hide Held;
    ghost var all := Held(iov, m);
    iov', m' := iov, m;
    var left := res;
    assert all[0..] == all;
    while m'.len > 0 && left >= |iov[m'.first]|
      invariant m'.list == m.list && m.first <= m'.first && m'.first + m'.len == m.first + m.len
      invariant 0 <= left <= res && all[res - left..] == Held(iov, m') && left <= |Held(iov, m')|
      decreases m'.len
    {
      DropEntry(iov, m');
      var n := |iov[m'.first]|;
      assert all[res - left..][n..] == all[res - (left - n)..];
      left := left - n;
      m' := m'.(len := m'.len - 1, first := m'.first + 1);
    }
    if left > 0 {
      HeldNone(iov, m');
      ShrinkEntry(iov, m', left);
      assert all[res - left..][left..] == all[res..];
      iov' := iov[m'.first := iov[m'.first][left..]];
    }
  }

  lemma HeldNone(iov: seq<seq<byte>>, m: Msg)
    ensures m.len == 0 ==> Held(iov, m) == []
  {
  }

  /** The entries a message points at. */
  function Held(iov: seq<seq<byte>>, m: Msg): seq<byte> {
    if m.first + m.len <= |iov| then Flat(iov[m.first..m.first + m.len]) else []
  }

  ghost predicate NoneEmpty(iov: seq<seq<byte>>, m: Msg) {
    forall j :: m.first <= j < m.first + m.len && j < |iov| ==> iov[j] != []
  }

  /** From `curr` on no message points at an empty entry, and only message `curr` may have none left. */
  ghost predicate DenseFrom(iov: seq<seq<byte>>, msgs: seq<Msg>, curr: nat) {
    && (forall i :: curr < i < |msgs| ==> 0 < msgs[i].len)
    && (forall i :: curr <= i < |msgs| ==> NoneEmpty(iov, msgs[i]))
  }

  lemma HeldSome(iov: seq<seq<byte>>, m: Msg)
    requires NoneEmpty(iov, m) && 0 < m.len && m.first + m.len <= |iov|
    ensures Held(iov, m) != []
  {
    assert iov[m.first..m.first + m.len][0] == iov[m.first];
  }

  lemma DenseSkip(iov: seq<seq<byte>>, msgs: seq<Msg>, curr: nat)
    requires DenseFrom(iov, msgs, curr) && curr < |msgs|
    ensures DenseFrom(iov, msgs, curr + 1)
  {
  }

  /** What is left to send begins in message `curr`, or in the next one if that has nothing left. */
  lemma DenseEnds(iov: seq<seq<byte>>, msgs: seq<Msg>, list: nat, curr: nat)
    requires DenseFrom(iov, msgs, curr) && Apart(iov, msgs, list, curr) && curr <= |msgs|
    ensures var i := if curr < |msgs| && msgs[curr].len == 0 then curr + 1 else curr;
      && (i < |msgs| ==> Held(iov, msgs[i]) != [])
      && (Unsent(iov, msgs, list, curr) == [] <==> i == |msgs|)
  {
    hide Held, NoneEmpty;
    var i := if curr < |msgs| && msgs[curr].len == 0 then curr + 1 else curr;
    if i < |msgs| { HeldSome(iov, msgs[i]); }
    if curr < |msgs| { HeldNone(iov, msgs[curr]); }
  }

  lemma DenseSent(was: seq<seq<byte>>, iov: seq<seq<byte>>, msgs: seq<Msg>, list: nat, curr: nat, m: Msg)
    requires curr < |msgs| && (NoneEmpty(was, msgs[curr]) ==> NoneEmpty(iov, m)) && |iov| == |was|
    requires Apart(was, msgs, list, curr)
    requires forall j :: msgs[curr].first + msgs[curr].len <= j < |was| ==> iov[j] == was[j]
    ensures DenseFrom(was, msgs, curr) ==> DenseFrom(iov, msgs[curr := m], curr)
  {
  }

  /** Messages from `curr` on point into the current list without sharing entries. */
  ghost predicate Apart(iov: seq<seq<byte>>, msgs: seq<Msg>, list: nat, curr: nat) {
    && (forall i :: curr <= i < |msgs| ==> msgs[i].list == list && msgs[i].first + msgs[i].len <= |iov|)
    && (forall i, j :: curr <= i < j < |msgs| ==> msgs[i].first + msgs[i].len <= msgs[j].first)
  }

  ghost function Unsent(iov: seq<seq<byte>>, msgs: seq<Msg>, list: nat, curr: nat): seq<byte>
    requires curr <= |msgs| && Apart(iov, msgs, list, curr)
    decreases |msgs| - curr
  {
    if curr == |msgs| then [] else Held(iov, msgs[curr]) + Unsent(iov, msgs, list, curr + 1)
  }

  lemma ApartInside(iov: seq<seq<byte>>, msgs: seq<Msg>, list: nat, curr: nat, i: nat)
    requires Apart(iov, msgs, list, curr) && curr <= i < |msgs|
    ensures msgs[i].first + msgs[i].len <= |iov| && msgs[i].list == list
  {
  }

  lemma ApartFrom(iov: seq<seq<byte>>, msgs: seq<Msg>, list: nat, curr: nat, i: nat)
    requires Apart(iov, msgs, list, curr) && curr <= i
    ensures Apart(iov, msgs, list, i)
  {
  }

  lemma NothingUnsent(iov: seq<seq<byte>>, msgs: seq<Msg>, list: nat)
    ensures Apart(iov, msgs, list, |msgs|) && Unsent(iov, msgs, list, |msgs|) == []
  {
  }

  lemma SkipDone(iov: seq<seq<byte>>, msgs: seq<Msg>, list: nat, curr: nat)
    requires curr < |msgs| && Apart(iov, msgs, list, curr) && msgs[curr].len == 0
    ensures Apart(iov, msgs, list, curr + 1) && Unsent(iov, msgs, list, curr + 1) == Unsent(iov, msgs, list, curr)
  {
  }

  lemma DropEntry(iov: seq<seq<byte>>, m: Msg)
    requires m.len > 0 && m.first + m.len <= |iov|
    ensures Held(iov, m) == iov[m.first] + Held(iov, m.(len := m.len - 1, first := m.first + 1))
    ensures |iov[m.first]| <= |Held(iov, m)|
    ensures Held(iov, m)[|iov[m.first]|..] == Held(iov, m.(len := m.len - 1, first := m.first + 1))
  {
    var es := iov[m.first..m.first + m.len];
    assert es[0] == iov[m.first] && es[1..] == iov[m.first + 1..m.first + m.len];
  }

  /** Part of the first entry has been sent. */
  lemma ShrinkEntry(iov: seq<seq<byte>>, m: Msg, left: nat)
    requires m.first + m.len <= |iov| && 0 < m.len && 0 < left < |iov[m.first]|
    ensures left <= |Held(iov, m)| && Held(iov[m.first := iov[m.first][left..]], m) == Held(iov, m)[left..]
  {
    DropEntry(iov, m);
    var iov' := iov[m.first := iov[m.first][left..]];
    DropEntry(iov', m);
    var next := m.(len := m.len - 1, first := m.first + 1);
    assert iov'[next.first..next.first + next.len] == iov[next.first..next.first + next.len];
  }

  lemma {:induction false} LaterUntouched(was: seq<seq<byte>>, iov: seq<seq<byte>>, msgs: seq<Msg>, msgs': seq<Msg>,
                                          list: nat, curr: nat, e: nat)
    requires curr <= |msgs| == |msgs'| && |iov| == |was| && Apart(was, msgs, list, curr)
    requires forall i :: curr <= i < |msgs| ==> msgs'[i] == msgs[i] && e <= msgs[i].first
    requires forall j :: e <= j < |was| ==> iov[j] == was[j]
    ensures Apart(iov, msgs', list, curr) && Unsent(iov, msgs', list, curr) == Unsent(was, msgs, list, curr)
    decreases |msgs| - curr
  {
    hide Flat;
    if curr < |msgs| {
      LaterUntouched(was, iov, msgs, msgs', list, curr + 1, e);
      var m := msgs[curr];
      assert iov[m.first..m.first + m.len] == was[m.first..m.first + m.len];
    }
  }

  /** Sending part of the current message leaves exactly the rest of everything. */
  lemma SentSome(was: seq<seq<byte>>, iov: seq<seq<byte>>, msgs: seq<Msg>, list: nat, curr: nat, m: Msg, all: seq<byte>,
                 n: nat)
    requires curr < |msgs| && Apart(was, msgs, list, curr) && all == Held(was, msgs[curr]) && n <= |all|
    requires |iov| == |was|
    requires m.list == list && msgs[curr].first <= m.first && m.first + m.len == msgs[curr].first + msgs[curr].len
    requires Held(iov, m) == all[n..] && forall j :: m.first + m.len <= j < |was| ==> iov[j] == was[j]
    ensures Apart(iov, msgs[curr := m], list, curr) && Apart(was, msgs, list, curr + 1)
    ensures Unsent(iov, msgs[curr := m], list, curr) == all[n..] + Unsent(was, msgs, list, curr + 1)
    ensures Unsent(was, msgs, list, curr) == all + Unsent(was, msgs, list, curr + 1)
  {
    hide Flat, Held;
    LaterUntouched(was, iov, msgs, msgs[curr := m], list, curr + 1, m.first + m.len);
  }

  lemma Regroup(a: seq<byte>, b: seq<byte>, c: seq<byte>, d: seq<byte>)
    ensures (a + b) + (c + d) == a + ((b + c) + d)
  {
  }

  lemma Cut(start: seq<byte>, buf: seq<byte>, at: nat, n: nat)
    requires at + n <= |buf|
    ensures start + buf[..at] + buf[at..at + n] == start + buf[..at + n]
  {
  }

  lemma ChainedEnd(msgs: seq<Msg>, n: nat, list: nat, used: nat)
    requires 0 < n <= |msgs| && Chained(msgs[..n], list, used)
    ensures msgs[n - 1].first + msgs[n - 1].len == used && msgs[0].first == 0 && msgs[n - 1].len <= IOV_MAX
  {
    assert msgs[..n][n - 1] == msgs[n - 1];
  }

  lemma ChainedMore(a: seq<Msg>, list: nat, used: nat, b: seq<Msg>)
    requires a != [] && Chained(a, list, used) && a[|a| - 1].len < IOV_MAX
    requires b == a[|a| - 1 := a[|a| - 1].(len := a[|a| - 1].len + 1)]
    ensures Chained(b, list, used + 1)
  {
  }

  lemma {:induction false} FirstApart(a: seq<Msg>, list: nat, used: nat, i: nat)
    requires 0 < i < |a| && Chained(a, list, used)
    ensures a[0].len <= a[i].first <= used
  {
    if i > 1 { FirstApart(a, list, used, i - 1); }
  }

  /** One more entry at the end of a slice. */
  lemma Appended(a: seq<seq<byte>>, b: seq<seq<byte>>, used: nat, piece: seq<byte>, i: nat)
    requires i <= used < |a| && b == a[used := piece]
    ensures Flat(b[i..used + 1]) == Flat(a[i..used]) + piece
  {
    assert b[i..used + 1] == a[i..used] + [piece];
    FlatConcat(a[i..used], [piece]);
    FlatOne(piece);
  }

  lemma ChainedAgain(a: seq<Msg>, x: nat, b: seq<Msg>, y: nat, used: nat)
    requires Chained(a, x, used) && |a| == |b| && forall i :: 0 <= i < |a| ==> b[i] == a[i].(list := y)
    ensures Chained(b, y, used)
  {
  }

  lemma ChainedList(msgs: seq<Msg>, n: nat, list: nat, used: nat)
    requires n <= |msgs| && Chained(msgs[..n], list, used)
    ensures forall i :: 0 <= i < n ==> msgs[i].list == list
  {
    forall i | 0 <= i < n ensures msgs[i].list == list {
      assert msgs[..n][i] == msgs[i];
    }
  }

  lemma ChainedInside(a: seq<Msg>, list: nat, used: nat)
    requires Chained(a, list, used) && a != []
    ensures a[0].len <= used && a[|a| - 1].first <= used
  {
  }

  lemma SameSlice(a: seq<seq<byte>>, b: seq<seq<byte>>, used: nat, i: nat, j: nat)
    requires i <= j <= used <= |a| && a <= b
    ensures b[i..j] == a[i..j] && b[..j] == a[..j]
  {
  }

  // ---- Whole replies ----------------------------------------------------------------------------

  function EndOf(msgs: seq<Msg>, i: nat, used: nat): nat {
    if i < |msgs| then msgs[i].first else used
  }

  lemma ChainStep(msgs: seq<Msg>, list: nat, used: nat, i: nat)
    requires Chained(msgs, list, used) && i < |msgs|
    ensures msgs[i].first + msgs[i].len == EndOf(msgs, i + 1, used) <= used
  {
  }

  lemma FlatSplit(iov: seq<seq<byte>>, a: nat, b: nat, c: nat)
    requires a <= b <= c <= |iov|
    ensures Flat(iov[a..c]) == Flat(iov[a..b]) + Flat(iov[b..c])
  {
    hide Flat;
    assert iov[a..c] == iov[a..b] + iov[b..c];
    FlatConcat(iov[a..b], iov[b..c]);
  }

  lemma {:induction false} ChainUnsent(iov: seq<seq<byte>>, msgs: seq<Msg>, list: nat, used: nat, i: nat)
    requires msgs != [] && Chained(msgs, list, used) && used <= |iov| && i <= |msgs|
    ensures Apart(iov, msgs, list, i) && EndOf(msgs, i, used) <= used
    ensures Unsent(iov, msgs, list, i) == Flat(iov[EndOf(msgs, i, used)..used])
    decreases |msgs| - i
  {
    hide Flat, Chained, Apart;
    ChainedApart(iov, msgs, list, used);
    ApartFrom(iov, msgs, list, 0, i);
    if i < |msgs| {
      ChainUnsent(iov, msgs, list, used, i + 1);
      ChainStep(msgs, list, used, i);
      FlatSplit(iov, msgs[i].first, EndOf(msgs, i + 1, used), used);
    } else {
      assert iov[used..used] == [];
      FlatNone();
    }
  }

  lemma ChainedNew(msgs: seq<Msg>, list: nat, used: nat)
    requires Chained(msgs, list, used) && msgs != []
    ensures Chained(msgs + [Msg(list, used, 0)], list, used)
  {
  }

  lemma FlatNone()
    ensures Flat([]) == []
  {
  }

  lemma ChainedApart(iov: seq<seq<byte>>, msgs: seq<Msg>, list: nat, used: nat)
    requires Chained(msgs, list, used) && used <= |iov|
    ensures Apart(iov, msgs, list, 0)
  {
    forall i, j | 0 <= i < j < |msgs| ensures msgs[i].first + msgs[i].len <= msgs[j].first {
      ChainOrder(msgs, list, used, i, j);
    }
  }

  lemma {:induction false} ChainOrder(msgs: seq<Msg>, list: nat, used: nat, i: nat, j: nat)
    requires Chained(msgs, list, used) && i < j < |msgs|
    ensures msgs[i].first + msgs[i].len <= msgs[j].first
    decreases j
  {
    if i < j - 1 { ChainOrder(msgs, list, used, i, j - 1); }
  }

  predicate AllFull(bufs: seq<seq<byte>>) {
    forall i :: 0 <= i < |bufs| ==> bufs[i] != []
  }

  /** A reply as it is put together: one add_iov for every buffer. */
  method Compose(bufs: seq<seq<byte>>) returns (c: Output)
    ensures fresh(c) && c.Valid() && c.Queue() == Flat(bufs) && c.msgcurr == 0 && c.sent == []
    ensures AllFull(bufs) ==> c.Solid()
  {
    hide Chained, Flat;
    c := new Output();
    var i := 0;
    assert bufs[..0] == [];
    FlatNone();
    while i < |bufs|
      invariant 0 <= i <= |bufs| && fresh(c) && c.Valid() && c.Queue() == Flat(bufs[..i]) && c.msgcurr == 0
      invariant c.sent == [] && (AllFull(bufs) ==> c.Solid())
    {
      assert bufs[..i + 1] == bufs[..i] + [bufs[i]];
      FlatConcat(bufs[..i], [bufs[i]]);
      FlatOne(bufs[i]);
      var ok := c.AddIov(bufs[i], true);
      i := i + 1;
    }
    assert bufs[..i] == bufs;
  }

  /** Nothing is lost, repeated or reordered: for every reply made of `bufs` and every sequence of
      results of sendmsg, the bytes sent followed by the bytes still queued are the buffers in
      order, and a complete transmission sent them all. */
  method Reply(bufs: seq<seq<byte>>, results: seq<int>, blocked: bool)
    returns (sent: seq<byte>, queued: seq<byte>, r: Sent)
    ensures sent + queued == Flat(bufs)
    ensures r == Complete ==> sent == Flat(bufs)
    ensures AllFull(bufs) && |Flat(bufs)| < |results| && (forall i :: 0 <= i < |results| ==> 0 < results[i]) ==>
      r == Complete
  {
    hide Chained, Apart, DenseFrom, Flat, AllFull;
    var c := Compose(bufs);
    c.StartSending();
    sent, queued, r := c.SendAll(results, blocked);
  }
}
