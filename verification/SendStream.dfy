/**
  Asynchronous sends on Windows. A send that would block hands the kernel one byte in an overlapped
  write, and reports it when the write completes; the caller drops what was reported and sends the
  rest again. The stream that the kernel gets is a prefix of the data for every sequence of outcomes.
 */
module SendStream {
  import opened Basics

  type Byte = bv8

  // ---- Buffers ----

  /** A buffer: `len` bytes of memory from `base` on. */
  datatype Iovec = Iovec(base: nat, len: nat)

  predicate InMemory(mem: seq<Byte>, v: Iovec) {
    v.base + v.len <= |mem|
  }

  function Bytes(mem: seq<Byte>, v: Iovec): seq<Byte> {
    if InMemory(mem, v) then mem[v.base..v.base + v.len] else []
  }

  /** The data that a list of buffers holds. */
  function Data(mem: seq<Byte>, iov: seq<Iovec>): seq<Byte>
    decreases |iov|
  {
    if iov == [] then [] else Bytes(mem, iov[0]) + Data(mem, iov[1..])
  }

  ghost predicate AllInMemory(mem: seq<Byte>, iov: seq<Iovec>) {
    forall i :: 0 <= i < |iov| ==> InMemory(mem, iov[i])
  }

  function Dropped(s: seq<Byte>, n: nat): seq<Byte> {
    s[Min(n, |s|)..]
  }

  /** `ffiovec_shift`: returns the number of bytes dropped. */
  method Shift(iov: array<Iovec>, i: nat, n: nat, ghost mem: seq<Byte>) returns (k: nat)
    requires i < iov.Length && InMemory(mem, iov[i])
    modifies iov
    ensures k == Min(n, old(iov[i]).len) && iov[..] == old(iov[..])[i := Shifted(old(iov[i]), n)]
    ensures Bytes(mem, iov[i]) == Dropped(old(Bytes(mem, iov[i])), n)
  {
    k := Min(n, iov[i].len);
    iov[i] := Iovec(iov[i].base + k, iov[i].len - k);
  }

  lemma {:induction false} NoData(mem: seq<Byte>, iov: seq<Iovec>)
    requires forall i :: 0 <= i < |iov| ==> iov[i].len == 0
    ensures Data(mem, iov) == []
  {
    if iov != [] {
      NoData(mem, iov[1..]);
    }
  }

  /** The data around the `i`-th buffer, when all before it are empty. */
  lemma {:induction false} DataFrom(mem: seq<Byte>, iov: seq<Iovec>, i: nat)
    requires i < |iov| && forall j :: 0 <= j < i ==> iov[j].len == 0
    ensures Data(mem, iov) == Bytes(mem, iov[i]) + Data(mem, iov[i + 1..])
    decreases i
  {
    if i > 0 {
      var rest := iov[1..];
      DataFrom(mem, rest, i - 1);
      assert rest[i..] == iov[i + 1..];
      assert Bytes(mem, iov[0]) + Data(mem, rest) == Data(mem, rest);
    }
  }

  function Shifted(v: Iovec, n: nat): Iovec {
    Iovec(v.base + Min(n, v.len), v.len - Min(n, v.len))
  }

  /** All buffers before `i` are empty. */
  ghost predicate EmptyBefore(iov: seq<Iovec>, i: nat) {
    i <= |iov| && forall j :: 0 <= j < i ==> iov[j].len == 0
  }

  /** The buffers still stand for `target` with `left` bytes to be dropped, and for just that if the `i`-th has data. */
  ghost predicate StandFor(mem: seq<Byte>, iov: seq<Iovec>, i: nat, left: nat, target: seq<Byte>) {
    && AllInMemory(mem, iov) && EmptyBefore(iov, i) && i < |iov|
    && Dropped(Data(mem, iov), left) == target
    && (iov[i].len != 0 ==> Data(mem, iov) == target != [])
  }

  /** Shifting the first buffer that may hold data, by what is still to be dropped. */
  lemma ShiftFirst(mem: seq<Byte>, iov: seq<Iovec>, i: nat, left: nat)
    requires i < |iov| && AllInMemory(mem, iov) && EmptyBefore(iov, i)
    ensures var iov' := iov[i := Shifted(iov[i], left)];
            StandFor(mem, iov', i, left - Min(left, iov[i].len), Dropped(Data(mem, iov), left))
  {
    var x, y := Bytes(mem, iov[i]), Data(mem, iov[i + 1..]);
    assert |x| == iov[i].len;
    DropFirst(x, y, left);
    DataFrom(mem, iov, i);
    DataShifted(mem, iov, i, left);
    OthersStay(mem, iov, i, left);
  }

  lemma OthersStay(mem: seq<Byte>, iov: seq<Iovec>, i: nat, n: nat)
    requires i < |iov| && AllInMemory(mem, iov) && EmptyBefore(iov, i)
    ensures var iov' := iov[i := Shifted(iov[i], n)]; AllInMemory(mem, iov') && EmptyBefore(iov', i)
  {
    BytesShifted(mem, iov[i], n);
  }

  lemma DataShifted(mem: seq<Byte>, iov: seq<Iovec>, i: nat, n: nat)
    requires i < |iov| && InMemory(mem, iov[i]) && forall j :: 0 <= j < i ==> iov[j].len == 0
    ensures var iov' := iov[i := Shifted(iov[i], n)];
            && InMemory(mem, iov'[i]) && iov'[i].len == |Dropped(Bytes(mem, iov[i]), n)|
            && Data(mem, iov') == Dropped(Bytes(mem, iov[i]), n) + Data(mem, iov[i + 1..])
  {
    var iov' := iov[i := Shifted(iov[i], n)];
    BytesShifted(mem, iov[i], n);
    DataFrom(mem, iov', i);
    assert iov'[i + 1..] == iov[i + 1..];
  }

  lemma BytesShifted(mem: seq<Byte>, v: Iovec, n: nat)
    requires InMemory(mem, v)
    ensures InMemory(mem, Shifted(v, n)) && Bytes(mem, Shifted(v, n)) == Dropped(Bytes(mem, v), n)
  {
  }

  /** Shifts the first buffer that may hold data; `left'` bytes are still to be dropped after it. */
  method ShiftOne(iov: array<Iovec>, i: nat, left: nat, ghost mem: seq<Byte>) returns (left': nat)
    requires i < iov.Length && AllInMemory(mem, iov[..]) && EmptyBefore(iov[..], i)
    modifies iov
    ensures StandFor(mem, iov[..], i, left', old(Dropped(Data(mem, iov[..]), left)))
  {
    ghost var was := iov[..];
    ShiftFirst(mem, was, i, left);
    var k := Shift(iov, i, left, mem);
    left' := left - k;
    assert iov[..] == was[i := Shifted(was[i], left)];
  }

  /** `ffiovec_array_shift`: drops exactly min(skip, total) bytes; returns 0 exactly when nothing is left. */
  method ArrayShift(iov: array<Iovec>, skip: nat, ghost mem: seq<Byte>) returns (r: int)
    requires AllInMemory(mem, iov[..])
    modifies iov
    ensures AllInMemory(mem, iov[..]) && Data(mem, iov[..]) == Dropped(old(Data(mem, iov[..])), skip)
    ensures r == if Data(mem, iov[..]) == [] then 0 else 1
  {
    ghost var target := Dropped(Data(mem, iov[..]), skip);
    var left: nat := skip;
    for i := 0 to iov.Length
      invariant AllInMemory(mem, iov[..]) && EmptyBefore(iov[..], i)
      invariant Dropped(Data(mem, iov[..]), left) == target
    {
      left := ShiftOne(iov, i, left, mem);
      if iov[i].len != 0 {
        return 1;
      }
    }
    NoData(mem, iov[..]);
    return 0;
  }

  lemma DropFirst(x: seq<Byte>, y: seq<Byte>, n: nat)
    ensures Dropped(Dropped(x, n) + y, n - Min(n, |x|)) == Dropped(x + y, n)
    ensures Dropped(x, n) != [] ==> Dropped(x, n) + y == Dropped(x + y, n) != []
  {
  }

  // ---- One call ----

  datatype OverlappedResult = Complete | Incomplete | Failed
  datatype SendResult = Sent(n: nat) | WouldBlock | SendError
  datatype WriteResult = Accepted | Queued | WriteError

  /** What the kernel answers if it is asked: for the pending write, the send, and a new write. */
  datatype Answers = Answers(pending: OverlappedResult, send: SendResult, write: WriteResult)

  /** The state of a `Task`, and what the kernel was handed: `broken` after a pending write has failed. */
  datatype Link = Link(active: bool, buf: seq<Byte>, handed: seq<Byte>, broken: bool)

  /** What is returned: a number of bytes, or -1 with the error for a write in flight or another one. */
  datatype Reply = Count(n: nat) | Pending | Error

  /**
    `ffsock_sendv_async`, or `ffsock_send_async` when not `vectored`, with the unsent data `rest`:
    the new link, and the result.
   */
  function Call(link: Link, vectored: bool, rest: seq<Byte>, k: Answers): (Link, Reply) {
    if link.active then
      match k.pending
      case Complete => (link.(active := false), Count(|link.buf|))
      case Incomplete => (link, Pending)
      case Failed => (link.(active := false, broken := true), Error)
    else
      match k.send
      case Sent(n) => (link.(handed := link.handed + rest[..Min(n, |rest|)]), Count(Min(n, |rest|)))
      case SendError => (link, Error)
      case WouldBlock =>
        var first := rest[..Min(1, |rest|)];
        if vectored && rest == [] then (link, Count(0))
        else if k.write == WriteError then (link.(buf := first), Error)
        else (link.(active := true, buf := first, handed := link.handed + first), Pending)
  }

  /**
    What a reply tells: a write is in flight exactly for `Pending`. A count is that of the bytes handed to
    the kernel by this call, or by the write that was in flight and is complete. With an error nothing more
    is handed, and only a write that was in flight leaves it open whether its byte arrived.
   */
  lemma ReplyTells(link: Link, vectored: bool, rest: seq<Byte>, k: Answers)
    requires !link.broken
    ensures var (link', reply) := Call(link, vectored, rest, k);
            && (reply == Pending <==> link'.active)
            && (link.active ==> link'.handed == link.handed && link'.buf == link.buf)
            && (reply.Count? && link.active ==> k.pending == Complete && reply.n == |link.buf|)
            && (reply.Count? && !link.active ==>
                  reply.n <= |rest| && link'.handed == link.handed + rest[..reply.n] && link'.buf == link.buf)
            && (reply == Pending && !link.active ==>
                  |link'.buf| <= 1 && link'.buf <= rest && link'.handed == link.handed + link'.buf)
            && (reply == Error ==> link'.handed == link.handed && (link'.broken <==> link.active))
            && (link'.broken ==> reply == Error)
  {
  }

  /** When a call counts, waits or fails, by what the kernel answers; buffers without data are never written. */
  lemma ReplyIff(link: Link, vectored: bool, rest: seq<Byte>, k: Answers)
    ensures var reply, nothing := Call(link, vectored, rest, k).1, vectored && rest == [];
            && (reply.Count? <==>
                  if link.active then k.pending == Complete else k.send.Sent? || (k.send == WouldBlock && nothing))
            && (reply == Pending <==>
                  if link.active then k.pending == Incomplete
                  else k.send == WouldBlock && !nothing && k.write != WriteError)
  {
  }

  // ---- Every sequence of outcomes ----

  /** The bytes of a write that is pending, or has failed. */
  function Flight(link: Link): seq<Byte> {
    if link.active || link.broken then link.buf else []
  }

  /** The kernel has the first `returned` bytes, and the byte in flight if there is one. */
  ghost predicate InSync(link: Link, data: seq<Byte>, returned: nat) {
    && |Flight(link)| <= 1 && returned + |Flight(link)| <= |data|
    && Flight(link) == data[returned..returned + |Flight(link)|]
    && link.handed == data[..returned + |Flight(link)|]
  }

  /** A caller: the link, and how many bytes it was told are sent. */
  datatype Caller = Caller(link: Link, returned: nat)

  /** Sends what remains, and adds the count that is returned. */
  function Retry(c: Caller, vectored: bool, data: seq<Byte>, k: Answers): Caller {
    var (link, reply) := Call(c.link, vectored, Dropped(data, c.returned), k);
    Caller(link, if reply.Count? then c.returned + reply.n else c.returned)
  }

  function Retries(vectored: bool, data: seq<Byte>, ks: seq<Answers>): Caller
    decreases |ks|
  {
    if ks == [] then Caller(Link(false, [], [], false), 0)
    else
      var c := Retries(vectored, data, ks[..|ks| - 1]);
      if c.link.broken then c else Retry(c, vectored, data, ks[|ks| - 1])
  }

  lemma RetriesNext(vectored: bool, data: seq<Byte>, ks: seq<Answers>, i: nat)
    requires i < |ks|
    ensures var c := Retries(vectored, data, ks[..i]);
            Retries(vectored, data, ks[..i + 1]) == if c.link.broken then c else Retry(c, vectored, data, ks[i])
  {
    assert ks[..i + 1][..i] == ks[..i];
  }

  lemma RetryInSync(c: Caller, vectored: bool, data: seq<Byte>, k: Answers)
    requires !c.link.broken && InSync(c.link, data, c.returned)
    ensures var c' := Retry(c, vectored, data, k); InSync(c'.link, data, c'.returned)
  {
    var rest := Dropped(data, c.returned);
    assert rest == data[c.returned..];
    if !c.link.active && !k.send.SendError? {
      var n := Min(if k.send.Sent? then k.send.n else 1, |rest|);
      assert rest[..n] == data[c.returned..c.returned + n];
      assert data[..c.returned] + rest[..n] == data[..c.returned + n];
    }
  }

  /**
    For every sequence of outcomes, the kernel is handed exactly a prefix of the data, in order and
    without repetition: as many bytes as were returned, and at most one more while a write is in flight,
    or if it has failed, after which the caller stops.
   */
  lemma {:induction false} StreamIntegrity(vectored: bool, data: seq<Byte>, ks: seq<Answers>)
    ensures var c := Retries(vectored, data, ks);
            && InSync(c.link, data, c.returned) && c.link.handed <= data
            && |c.link.handed| == c.returned + |Flight(c.link)| <= c.returned + 1
    decreases |ks|
  {
    if ks != [] {
      var init := ks[..|ks| - 1];
      StreamIntegrity(vectored, data, init);
      if !Retries(vectored, data, init).link.broken {
        RetryInSync(Retries(vectored, data, init), vectored, data, ks[|ks| - 1]);
      }
    }
  }

  /** Answers with which the stream goes on. */
  predicate Favourable(k: Answers) {
    k.pending == Complete && match k.send
                             case Sent(n) => n > 0
                             case WouldBlock => k.write != WriteError
                             case SendError => false
  }

  /** What was returned counts twice, what is in flight once. */
  function Progress(c: Caller): nat {
    2 * c.returned + |Flight(c.link)|
  }

  /** Only when all is returned can an empty write be in flight. */
  ghost predicate Underway(c: Caller, data: seq<Byte>) {
    && InSync(c.link, data, c.returned) && !c.link.broken
    && (c.link.active && c.link.buf == [] ==> c.returned == |data|)
  }

  lemma FavourableProgress(c: Caller, vectored: bool, data: seq<Byte>, k: Answers)
    requires Underway(c, data) && Favourable(k)
    ensures var c' := Retry(c, vectored, data, k);
            Underway(c', data) && Progress(c') >= Min(Progress(c) + 1, 2 * |data|)
  {
    RetryInSync(c, vectored, data, k);
  }

  /** With favourable answers, two for each byte are enough: all is returned, and the kernel has all of it. */
  lemma StreamArrives(vectored: bool, data: seq<Byte>, ks: seq<Answers>)
    requires |ks| >= 2 * |data| && forall i :: 0 <= i < |ks| ==> Favourable(ks[i])
    ensures var c := Retries(vectored, data, ks); c.returned == |data| && c.link.handed == data
  {
    ProgressMade(vectored, data, ks);
  }

  lemma {:induction false} ProgressMade(vectored: bool, data: seq<Byte>, ks: seq<Answers>)
    requires forall i :: 0 <= i < |ks| ==> Favourable(ks[i])
    ensures var c := Retries(vectored, data, ks); Underway(c, data) && Progress(c) >= Min(|ks|, 2 * |data|)
    decreases |ks|
  {
    if ks != [] {
      var init := ks[..|ks| - 1];
      ProgressMade(vectored, data, init);
      FavourableProgress(Retries(vectored, data, init), vectored, data, ks[|ks| - 1]);
    }
  }

  // ---- The code ----

  class Task {
    var active: bool
    var buf: seq<Byte>
    ghost var handed: seq<Byte>
    var broken: bool

    ghost function Value(): Link
      reads this
    {
      Link(active, buf, handed, broken)
    }

    constructor ()
      ensures Value() == Link(false, [], [], false)
    {
      active, buf, handed, broken := false, [], [], false;
    }

    /** `ffsock_sendv_async`. */
    method SendvAsync(mem: seq<Byte>, iov: array<Iovec>, k: Answers) returns (reply: Reply)
      requires AllInMemory(mem, iov[..])
      modifies this
      ensures (Value(), reply) == Call(old(Value()), true, Data(mem, iov[..]), k)
    {
      if active {
        if k.pending != Complete {
          if k.pending == Incomplete {
            return Pending;
          }
          active, broken := false, true;
          return Error;
        }
        active := false;
        return Count(|buf|);
      }
      ghost var rest := Data(mem, iov[..]);
      if k.send.Sent? {
        var total := Total(mem, iov);
        handed := handed + rest[..Min(k.send.n, total)];
        return Count(Min(k.send.n, total));
      } else if k.send != WouldBlock {
        return Error;
      }
      var found, first := FirstByte(mem, iov);
      if !found {
        return Count(0);
      }
      buf := [first];
      if k.write == WriteError {
        return Error;
      }
      handed := handed + buf;
      active := true;
      return Pending;
    }
  }

  /** `ffsock_send_async` for one buffer. */
  method SendAsync(task: Task, mem: seq<Byte>, v: Iovec, k: Answers) returns (reply: Reply)
    requires InMemory(mem, v)
    modifies task
    ensures (task.Value(), reply) == Call(old(task.Value()), false, Bytes(mem, v), k)
  {
    if task.active {
      if k.pending != Complete {
        if k.pending == Incomplete {
          return Pending;
        }
        task.active, task.broken := false, true;
        return Error;
      }
      task.active := false;
      return Count(|task.buf|);
    }
    if k.send.Sent? {
      task.handed := task.handed + Bytes(mem, v)[..Min(k.send.n, v.len)];
      return Count(Min(k.send.n, v.len));
    } else if k.send != WouldBlock {
      return Error;
    }
    var len := Min(1, v.len);
    task.buf := mem[v.base..v.base + len];
    BytesTaken(mem, v, len);
    if k.write == WriteError {
      return Error;
    }
    task.handed := task.handed + task.buf;
    task.active := true;
    return Pending;
  }

  lemma BytesTaken(mem: seq<Byte>, v: Iovec, n: nat)
    requires InMemory(mem, v) && n <= v.len
    ensures mem[v.base..v.base + n] == Bytes(mem, v)[..n]
  {
  }

  method Total(mem: seq<Byte>, iov: array<Iovec>) returns (n: nat)
    requires AllInMemory(mem, iov[..])
    ensures n == |Data(mem, iov[..])|
  {
    n := 0;
    assert iov[0..] == iov[..];
    for i := 0 to iov.Length
      invariant n + |Data(mem, iov[i..])| == |Data(mem, iov[..])|
    {
      assert iov[i..][1..] == iov[i + 1..];
      n := n + iov[i].len;
    }
  }

  /** The first byte of the first buffer that is not empty. */
  method FirstByte(mem: seq<Byte>, iov: array<Iovec>) returns (found: bool, b: Byte)
    requires AllInMemory(mem, iov[..])
    ensures found == (Data(mem, iov[..]) != [])
    ensures found ==> [b] == Data(mem, iov[..])[..1]
  {
    for i := 0 to iov.Length
      invariant forall j :: 0 <= j < i ==> iov[j].len == 0
    {
      if iov[i].len != 0 {
        DataFrom(mem, iov[..], i);
        return true, mem[iov[i].base];
      }
    }
    NoData(mem, iov[..]);
    return false, 0;
  }

  /** One more try by a caller that drops what was sent with `ffiovec_array_shift`. */
  method DriveOnce(task: Task, mem: seq<Byte>, iov: array<Iovec>, k: Answers, returned: nat, ghost data: seq<Byte>)
    returns (returned': nat)
    requires AllInMemory(mem, iov[..]) && InSync(task.Value(), data, returned)
    requires Data(mem, iov[..]) == Dropped(data, returned)
    modifies task, iov
    ensures Caller(task.Value(), returned') == Retry(Caller(old(task.Value()), returned), true, data, k)
    ensures AllInMemory(mem, iov[..]) && Data(mem, iov[..]) == Dropped(data, returned')
  {
    var reply := task.SendvAsync(mem, iov, k);
    if !reply.Count? {
      return returned;
    }
    DroppedTwice(data, returned, reply.n);
    var _ := ArrayShift(iov, reply.n, mem);
    return returned + reply.n;
  }

  lemma DroppedTwice(data: seq<Byte>, m: nat, n: nat)
    ensures Dropped(Dropped(data, m), n) == Dropped(data, m + n)
  {
    if m + n <= |data| {
      assert data[m..][n..] == data[m + n..];
    }
  }

  /** A caller that retries, whatever the kernel answers. */
  method Drive(mem: seq<Byte>, iov: array<Iovec>, ks: seq<Answers>) returns (task: Task, returned: nat)
    requires AllInMemory(mem, iov[..])
    modifies iov
    ensures Caller(task.Value(), returned) == Retries(true, old(Data(mem, iov[..])), ks)
    ensures Data(mem, iov[..]) == Dropped(old(Data(mem, iov[..])), returned)
  {
    ghost var data := Data(mem, iov[..]);
    task := new Task();
    returned := 0;
    for i := 0 to |ks|
      invariant fresh(task) && AllInMemory(mem, iov[..])
      invariant Caller(task.Value(), returned) == Retries(true, data, ks[..i])
      invariant Data(mem, iov[..]) == Dropped(data, returned)
    {
      RetriesNext(true, data, ks, i);
      StreamIntegrity(true, data, ks[..i]);
      if !task.broken {
        returned := DriveOnce(task, mem, iov, ks[i], returned, data);
      }
    }
    assert ks[..|ks|] == ks;
  }
}
