/** Frame reassembly on a TCP link: the bytes the socket delivers are cut back into the
    packets the peer sent, whatever the chunks they arrive in. */
module TcpReceive {
  import opened Bytes

  const TCP_BUFFER_SIZE := 0x11000
  const TCP_MAXIMUM_PACKET_SIZE := 52428800
  const TCP_MAXIMUM_TEMPLATE_SIZE := 32

  datatype Parsed = Malformed | UserSize(n: int)

  /** The protocol template of a link: header length, the user's header parser (absent on
      a link without template) and whether headers are handed to the user. */
  datatype Template = Template(cb: nat, hasParser: bool, parser: seq<byte> -> Parsed, fully: bool)

  datatype LargeBlock = NoBlock | LargeBlock(data: seq<byte>, size: nat)

  /** What a link remembers between two deliveries, and the packets it has posted. */
  datatype Rx = Rx(buf: seq<byte>, lb: LargeBlock, posted: seq<seq<byte>>)

  const FRESH := Rx([], NoBlock, [])

  /** What the user receives of a whole frame. */
  function Delivered(t: Template, frame: seq<byte>): seq<byte>
    requires t.cb <= |frame|
  {
    if t.fully then frame else frame[t.cb..]
  }

  // ---------- one call of the parser ----------

  ghost predicate Legal(size: int) { 0 < size <= TCP_MAXIMUM_PACKET_SIZE }

  /** `n` bytes of a packet of the size `p` that fits the buffer. */
  ghost predicate Started(t: Template, n: nat, p: Parsed) {
    match p
    case UserSize(size) => Legal(size) && n < size + t.cb <= TCP_BUFFER_SIZE
    case Malformed => false
  }

  /** Between calls the buffer holds part of a header, or a whole header and part of the
      body of a packet that fits the buffer; a large block is still incomplete. */
  ghost predicate Inv(t: Template, s: Rx) {
    var inv :=
      && (s.lb.LargeBlock? ==> s.buf == [] && 0 < |s.lb.data| < s.lb.size && t.cb < s.lb.size)
      && (s.buf == [] || |s.buf| < t.cb || (t.hasParser && Started(t, |s.buf|, t.parser(s.buf[..t.cb]))));
    inv
  }

  function ParseMarked(t: Template, s: Rx, data: seq<byte>): (Rx, int)
    requires s.lb.LargeBlock? && |s.lb.data| <= s.lb.size && t.cb <= s.lb.size
  {
    if |data| + |s.lb.data| < s.lb.size then
      (s.(lb := LargeBlock(s.lb.data + data, s.lb.size)), 0)
    else
      var overplus := s.lb.size - |s.lb.data|;
      (Rx(s.buf, NoBlock, s.posted + [Delivered(t, s.lb.data + data[..overplus])]), |data| - overplus)
  }

  /** tcp_parse_pkt on one run of bytes: the new state and how many bytes are left over,
      or -1 when the link must be closed. */
  function ParsePkt(t: Template, s: Rx, data: seq<byte>): (r: (Rx, int))
    requires Inv(t, s)
  {
    if data == [] then (s, -1)
    else if t.cb == 0 && !t.hasParser then (s.(buf := [], posted := s.posted + [data]), 0)
    else if s.lb.LargeBlock? then ParseMarked(t, s, data)
    else if |s.buf| + |data| < t.cb then (s.(buf := s.buf + data), 0)
    else
      var used := if |s.buf| < t.cb then t.cb - |s.buf| else 0;
      Body(t, s.(buf := s.buf + data[..used]), data, data[used..])
  }

  /** The header is whole: take up the body. `rest` is the part of `data` behind the header. */
  function Body(t: Template, s: Rx, data: seq<byte>, rest: seq<byte>): (r: (Rx, int))
    requires t.cb <= |s.buf|
  {
    if !t.hasParser then (s, -1)
    else
      var p := t.parser(s.buf[..t.cb]);
      if p.Malformed? || p.n > TCP_MAXIMUM_PACKET_SIZE || p.n <= 0 then (s, -1)
      else
        var total := p.n + t.cb;
        if total > TCP_BUFFER_SIZE then (Rx([], LargeBlock(data, total), s.posted), 0)
        else if |s.buf| <= total <= |s.buf| + |rest| then
          var more := total - |s.buf|;
          (Rx([], s.lb, s.posted + [Delivered(t, s.buf + rest[..more])]), |rest| - more)
        else (s.(buf := s.buf + rest), 0)
  }

  lemma {:induction false} ParsePktKeeps(t: Template, s: Rx, data: seq<byte>)
    requires Inv(t, s) && 0 < |data| <= TCP_BUFFER_SIZE
    ensures ParsePkt(t, s, data).1 >= 0 ==> Inv(t, ParsePkt(t, s, data).0)
    ensures ParsePkt(t, s, data).1 < |data|
  {
    if s.lb.NoBlock? && |s.buf| + |data| >= t.cb {
      var used := if |s.buf| < t.cb then t.cb - |s.buf| else 0;
      var head := s.buf + data[..used];
      assert (head + data[used..])[..t.cb] == head[..t.cb];
      if used == 0 {
        assert head == s.buf;
      }
    }
  }

  /** A header that the link takes. */
  predicate TakesHeader(t: Template, header: seq<byte>) {
    match t.parser(header)
    case UserSize(n) => 0 < n <= 52428800
    case Malformed => false
  }

  /** The parser gives up exactly on no bytes at all, and when it has a whole header that it cannot
      take; it posts nothing then. */
  lemma {:induction false} ClosesIff(t: Template, s: Rx, data: seq<byte>)
    requires Inv(t, s) && |data| <= TCP_BUFFER_SIZE
    ensures ParsePkt(t, s, data).1 < 0 <==>
      data == [] ||
      ((t.hasParser || t.cb > 0) && s.lb.NoBlock? && |s.buf| + |data| >= t.cb &&
       !(t.hasParser && TakesHeader(t, (s.buf + data)[..t.cb])))
    ensures ParsePkt(t, s, data).1 < 0 ==> ParsePkt(t, s, data).0.posted == s.posted
  {
    if s.lb.NoBlock? && |s.buf| + |data| >= t.cb {
      var used := if |s.buf| < t.cb then t.cb - |s.buf| else 0;
      assert (s.buf + data)[..t.cb] == (s.buf + data[..used])[..t.cb];
      if used == 0 {
        assert s.buf + data[..used] == s.buf;
      }
    }
  }

  // ---------- deliveries ----------

  /** A link after some deliveries: still open, or closed by a malformed header. */
  datatype Outcome = Open(s: Rx) | Closed(s: Rx)

  /** _tcp_rx: call the parser until it leaves nothing over. */
  ghost function RxChunk(t: Template, s: Rx, data: seq<byte>): (r: Outcome)
    requires Inv(t, s) && 0 < |data| <= TCP_BUFFER_SIZE
    ensures r.Open? ==> Inv(t, r.s)
    decreases |data|
  {
    ParsePktKeeps(t, s, data);
    var (s', left) := ParsePkt(t, s, data);
    if left < 0 then Closed(s')
    else if left == 0 then Open(s')
    else RxChunk(t, s', data[|data| - left..])
  }

  lemma {:induction false} RxChunkStep(t: Template, s: Rx, data: seq<byte>, s': Rx, left: int)
    requires Inv(t, s) && 0 < |data| <= TCP_BUFFER_SIZE && (s', left) == ParsePkt(t, s, data)
    ensures left < |data| && (left >= 0 ==> Inv(t, s'))
    ensures RxChunk(t, s, data) ==
      if left < 0 then Closed(s') else if left == 0 then Open(s') else RxChunk(t, s', data[|data| - left..])
  {
    ParsePktKeeps(t, s, data);
  }

  ghost predicate Deliverable(chunks: seq<seq<byte>>) {
    forall i :: 0 <= i < |chunks| ==> 0 < |chunks[i]| <= TCP_BUFFER_SIZE
  }

  ghost function RxAll(t: Template, s: Rx, chunks: seq<seq<byte>>): (r: Outcome)
    requires Inv(t, s) && Deliverable(chunks)
    decreases |chunks|
  {
    if chunks == [] then Open(s)
    else
      var o := RxChunk(t, s, chunks[0]);
      if o.Closed? then o else RxAll(t, o.s, chunks[1..])
  }

  // ---------- frames and their place in the stream ----------

  function Flatten(ss: seq<seq<byte>>): seq<byte> {
    if ss == [] then [] else ss[0] + Flatten(ss[1..])
  }

  /** How many bytes the first `k` pieces take. */
  function Offset(ss: seq<seq<byte>>, k: nat): nat
    requires k <= |ss|
  {
    if k == 0 then 0 else Offset(ss, k - 1) + |ss[k - 1]|
  }

  lemma {:induction false} OffsetMonotone(ss: seq<seq<byte>>, j: nat, k: nat)
    requires j <= k <= |ss|
    ensures Offset(ss, j) <= Offset(ss, k)
  {
    if j < k {
      OffsetMonotone(ss, j, k - 1);
    }
  }

  ghost predicate WellFormed(t: Template, f: seq<byte>) {
    |f| > t.cb && t.parser(f[..t.cb]) == UserSize(|f| - t.cb) && |f| - t.cb <= TCP_MAXIMUM_PACKET_SIZE
  }

  ghost predicate Frames(t: Template, frames: seq<seq<byte>>) {
    forall i :: 0 <= i < |frames| ==> WellFormed(t, frames[i])
  }

  function Payloads(t: Template, frames: seq<seq<byte>>): (r: seq<seq<byte>>)
    requires forall i :: 0 <= i < |frames| ==> |frames[i]| >= t.cb
  {
    seq(|frames|, i requires 0 <= i < |frames| => Delivered(t, frames[i]))
  }

  predicate Large(f: seq<byte>) { |f| > TCP_BUFFER_SIZE }

  /** Byte `c` of the stream is inside the header of frame `k`, which is a large one. */
  ghost predicate InLargeHeader(t: Template, frames: seq<seq<byte>>, k: nat, c: nat)
    requires k < |frames|
  {
    Large(frames[k]) && Offset(frames, k) < c < Offset(frames, k) + t.cb
  }

  /** The cut at byte `c` of the stream falls inside the header of a large frame. */
  ghost predicate CutsLargeHeader(t: Template, frames: seq<seq<byte>>, c: nat) {
    exists k :: 0 <= k < |frames| && InLargeHeader(t, frames, k, c)
  }

  /** No delivery starts inside the header of a large frame. */
  ghost predicate HeadersWhole(t: Template, frames: seq<seq<byte>>, chunks: seq<seq<byte>>) {
    forall i :: 0 <= i < |chunks| ==> !CutsLargeHeader(t, frames, Offset(chunks, i))
  }

  // ---------- the state between two frames ----------

  /** What is still to come when `n` bytes of frame `k` have arrived. */
  ghost function Rest(frames: seq<seq<byte>>, k: nat, n: nat): seq<byte>
    requires k <= |frames| && (k < |frames| ==> n <= |frames[k]|)
  {
    if k == |frames| then [] else frames[k][n..] + Flatten(frames[k + 1..])
  }

  ghost predicate ToCome(frames: seq<seq<byte>>, k: nat, n: nat, rest: seq<byte>)
    requires k <= |frames| && (k < |frames| ==> n <= |frames[k]|)
  {
    var same := rest == Rest(frames, k, n);
    same
  }

  /** `n` bytes into piece `k`, or at the end. */
  ghost predicate Within(ss: seq<seq<byte>>, k: nat, n: nat) {
    k <= |ss| && if k < |ss| then n < |ss[k]| else n == 0
  }

  /** `k` frames are posted and the link holds exactly the first `n` bytes of the next one. */
  ghost function StateAt(t: Template, frames: seq<seq<byte>>, k: nat, n: nat): Rx
    requires Frames(t, frames) && Within(frames, k, n)
  {
    var held := if k < |frames| then frames[k][..n] else [];
    if k < |frames| && Large(frames[k]) && n > 0 && n >= t.cb
    then Rx([], LargeBlock(held, |frames[k]|), Payloads(t, frames[..k]))
    else Rx(held, NoBlock, Payloads(t, frames[..k]))
  }

  ghost predicate Aligned(t: Template, frames: seq<seq<byte>>, s: Rx, k: nat, n: nat)
    requires Frames(t, frames)
  {
    var aligned := Within(frames, k, n) && s == StateAt(t, frames, k, n);
    aligned
  }

  lemma {:induction false} AlignedInv(t: Template, frames: seq<seq<byte>>, s: Rx, k: nat, n: nat)
    requires t.hasParser && Frames(t, frames) && Aligned(t, frames, s, k, n)
    ensures Inv(t, s)
  {
    if k < |frames| && n >= t.cb {
      assert frames[k][..n][..t.cb] == frames[k][..t.cb];
    }
  }

  /** The header of frame `k` is about to be taken up in the middle, and it is a large frame. */
  ghost predicate MidLargeHeader(t: Template, frames: seq<seq<byte>>, k: nat, n: nat) {
    k < |frames| && Large(frames[k]) && 0 < n < t.cb
  }

  /** The parser reads the size of frame `f` off what is held and what arrives. */
  lemma {:induction false} HeaderArrives(t: Template, f: seq<byte>, n: nat, data: seq<byte>)
    requires t.hasParser && WellFormed(t, f) && n < |f| && t.cb <= n + |data|
    requires var m := Min(|data|, |f| - n); data[..m] == f[n..n + m]
    ensures var used := if n < t.cb then t.cb - n else 0;
      used <= |data| && f[..n] + data[..used] == f[..n + used] &&
      t.parser((f[..n] + data[..used])[..t.cb]) == UserSize(|f| - t.cb)
  {
    var used := if n < t.cb then t.cb - n else 0;
    var m := Min(|data|, |f| - n);
    assert data[..used] == data[..m][..used] == f[n..n + used];
    assert f[..n + used][..t.cb] == f[..t.cb];
  }

  /** A call that has the header, or completes it, goes on with the body. */
  lemma {:induction false} ParsePktGoesOn(t: Template, s: Rx, data: seq<byte>,
    used: nat, head: seq<byte>, rest: seq<byte>)
    requires Inv(t, s) && t.hasParser && data != [] && s.lb.NoBlock? && |s.buf| + |data| >= t.cb
    requires used == if |s.buf| < t.cb then t.cb - |s.buf| else 0
    requires head == s.buf + data[..used] && rest == data[used..]
    ensures t.cb <= |head| && ParsePkt(t, s, data) == Body(t, s.(buf := head), data, rest)
  {
  }

  /** The header is whole and the body is not, of a frame that fits the buffer. */
  lemma {:induction false} BodyWaits(t: Template, f: seq<byte>, n: nat, s: Rx, data: seq<byte>, rest: seq<byte>)
    requires t.hasParser && WellFormed(t, f) && t.cb <= n && n + |rest| < |f| && s.buf == f[..n]
    requires rest == f[n..n + |rest|] && !Large(f)
    ensures Body(t, s, data, rest) == (s.(buf := f[..n + |rest|]), 0)
  {
    assert f[..n][..t.cb] == f[..t.cb];
    assert f[..n] + rest == f[..n + |rest|];
  }

  /** The body is whole, too. */
  lemma {:induction false} BodyComplete(t: Template, f: seq<byte>, n: nat, s: Rx, data: seq<byte>, rest: seq<byte>)
    requires t.hasParser && WellFormed(t, f) && t.cb <= n <= |f| <= n + |rest| && s.buf == f[..n]
    requires rest[..|f| - n] == f[n..] && !Large(f)
    ensures Body(t, s, data, rest) == (Rx([], s.lb, s.posted + [Delivered(t, f)]), n + |rest| - |f|)
  {
    assert f[..n][..t.cb] == f[..t.cb];
    assert f[..n] + rest[..|f| - n] == f;
  }

  /** How the header's part of `data` and what is held of frame `f` fit together. */
  lemma {:induction false} HeaderTaken(f: seq<byte>, n: nat, data: seq<byte>, m: nat, used: nat)
    requires n + m <= |f| && used <= m <= |data| && data[..m] == f[n..n + m]
    ensures f[..n] + data[..used] == f[..n + used] && data[used..][..m - used] == f[n + used..n + m]
  {
    assert data[..used] == data[..m][..used];
    assert data[used..][..m - used] == data[..m][used..];
  }

  lemma {:induction false} AllTaken(f: seq<byte>, n: nat, data: seq<byte>, used: nat)
    requires n + |data| <= |f| && used <= |data| && data == f[n..n + |data|]
    ensures f[..n] + data[..used] == f[..n + used] && data[used..] == f[n + used..n + |data|]
    ensures f[..n] + data == f[..n + |data|]
  {
  }

  /** A call that brings the middle of a frame that fits the buffer, its header being whole or
      completed now. */
  lemma {:induction false} TakeBody(t: Template, f: seq<byte>, n: nat, s: Rx, data: seq<byte>, used: nat)
    requires t.hasParser && WellFormed(t, f) && Inv(t, s) && data != [] && !Large(f)
    requires s.lb == NoBlock && t.cb <= n + |data| < |f| && s.buf == f[..n] && data == f[n..n + |data|]
    requires used == if n < t.cb then t.cb - n else 0
    ensures ParsePkt(t, s, data) == (s.(buf := f[..n + |data|]), 0)
  {
    var head, rest := f[..n + used], f[n + used..n + |data|];
    AllTaken(f, n, data, used);
    ParsePktGoesOn(t, s, data, used, head, rest);
    BodyWaits(t, f, n + used, s.(buf := head), data, rest);
  }

  /** A call that brings the middle of a frame that fits the buffer, or of its header. */
  lemma {:induction false} TakeSmall(t: Template, f: seq<byte>, n: nat, s: Rx, data: seq<byte>)
    requires t.hasParser && WellFormed(t, f) && Inv(t, s) && data != []
    requires s.lb == NoBlock && n + |data| < |f| && s.buf == f[..n] && data == f[n..n + |data|]
    requires !Large(f) || n + |data| < t.cb
    ensures ParsePkt(t, s, data) == (s.(buf := f[..n + |data|]), 0)
  {
    if n + |data| < t.cb {
      AllTaken(f, n, data, 0);
    } else {
      TakeBody(t, f, n, s, data, if n < t.cb then t.cb - n else 0);
    }
  }

  /** A call that starts a large frame, with its header whole. */
  lemma {:induction false} TakeLarge(t: Template, f: seq<byte>, s: Rx, data: seq<byte>)
    requires t.hasParser && WellFormed(t, f) && Inv(t, s) && data != []
    requires s.lb == NoBlock && s.buf == [] && |data| < |f| && data == f[..|data|]
    requires Large(f) && |data| >= t.cb
    ensures ParsePkt(t, s, data) == (Rx([], LargeBlock(data, |f|), s.posted), 0)
  {
    HeaderArrives(t, f, 0, data);
    assert [] + data[..t.cb] == f[..0] + data[..t.cb];
  }

  /** A call that completes a frame that fits the buffer. */
  lemma {:induction false} CompleteSmall(t: Template, f: seq<byte>, n: nat, s: Rx, data: seq<byte>)
    requires t.hasParser && WellFormed(t, f) && Inv(t, s)
    requires s.lb == NoBlock && n < |f| <= n + |data| && s.buf == f[..n] && data[..|f| - n] == f[n..]
    requires !Large(f)
    ensures ParsePkt(t, s, data) == (Rx([], NoBlock, s.posted + [Delivered(t, f)]), n + |data| - |f|)
  {
    var used, m := if n < t.cb then t.cb - n else 0, |f| - n;
    HeaderTaken(f, n, data, m, used);
    ParsePktGoesOn(t, s, data, used, f[..n + used], data[used..]);
    BodyComplete(t, f, n + used, s.(buf := f[..n + used]), data, data[used..]);
  }

  /** How arriving bytes line up with the rest of the frame they belong to. */
  lemma {:induction false} LineUp(f: seq<byte>, n: nat, tail: seq<byte>, data: seq<byte>, more: seq<byte>)
    requires n < |f| && data + more == f[n..] + tail
    ensures n + |data| < |f| ==> data == f[n..n + |data|] && more == f[n + |data|..] + tail
    ensures n + |data| >= |f| ==> data[..|f| - n] == f[n..] && data[|f| - n..] + more == tail
  {
    var all := data + more;
    if n + |data| < |f| {
      assert data == all[..|data|];
      assert more == all[|data|..];
    } else {
      var m := |f| - n;
      assert data[..m] == all[..m];
      assert data[m..] + more == all[m..];
    }
  }

  /** One call that ends inside frame `k` just takes everything in. */
  lemma {:induction false} StepInside(t: Template, frames: seq<seq<byte>>, s: Rx, k: nat, n: nat, data: seq<byte>,
                                      more: seq<byte>)
    requires t.hasParser && Frames(t, frames) && Aligned(t, frames, s, k, n) && Inv(t, s)
    requires 0 < |data| <= TCP_BUFFER_SIZE && ToCome(frames, k, n, data + more)
    requires !MidLargeHeader(t, frames, k, n) || n + |data| < t.cb
    requires k < |frames| && n + |data| < |frames[k]|
    ensures ParsePkt(t, s, data).1 == 0
    ensures Aligned(t, frames, ParsePkt(t, s, data).0, k, n + |data|)
    ensures ToCome(frames, k, n + |data|, more)
  {
    var f, tail := frames[k], Flatten(frames[k + 1..]);
    LineUp(f, n, tail, data, more);
    if s.lb.LargeBlock? {
      assert f[..n] + data == f[..n + |data|];
    } else if Large(f) && n + |data| >= t.cb {
      TakeLarge(t, f, s, data);
    } else {
      TakeSmall(t, f, n, s, data);
    }
  }

  lemma {:induction false} PayloadsNext(t: Template, frames: seq<seq<byte>>, k: nat)
    requires Frames(t, frames) && k < |frames|
    ensures Payloads(t, frames[..k + 1]) == Payloads(t, frames[..k]) + [Delivered(t, frames[k])]
  {
  }

  /** A call that completes a large frame. */
  lemma {:induction false} CompleteLarge(t: Template, f: seq<byte>, n: nat, s: Rx, data: seq<byte>)
    requires t.hasParser && WellFormed(t, f) && Inv(t, s) && n < |f| <= n + |data|
    requires s.lb == LargeBlock(f[..n], |f|) && data[..|f| - n] == f[n..]
    ensures ParsePkt(t, s, data) == (Rx([], NoBlock, s.posted + [Delivered(t, f)]), n + |data| - |f|)
  {
    assert f[..n] + data[..|f| - n] == f;
  }

  /** One call that reaches the end of frame `k` posts it and hands back what follows. */
  lemma {:induction false} StepAcross(t: Template, frames: seq<seq<byte>>, s: Rx, k: nat, n: nat, data: seq<byte>,
                                      more: seq<byte>)
    requires t.hasParser && Frames(t, frames) && Aligned(t, frames, s, k, n) && Inv(t, s)
    requires 0 < |data| <= TCP_BUFFER_SIZE && ToCome(frames, k, n, data + more)
    requires !MidLargeHeader(t, frames, k, n)
    requires k < |frames| && n + |data| >= |frames[k]|
    ensures ParsePkt(t, s, data).1 == n + |data| - |frames[k]|
    ensures Aligned(t, frames, ParsePkt(t, s, data).0, k + 1, 0)
    ensures ToCome(frames, k + 1, 0, data[|frames[k]| - n..] + more)
  {
    var f, tail := frames[k], Flatten(frames[k + 1..]);
    var m := |f| - n;
    LineUp(f, n, tail, data, more);
    PayloadsNext(t, frames, k);
    if s.lb.LargeBlock? {
      CompleteLarge(t, f, n, s, data);
    } else {
      CompleteSmall(t, f, n, s, data);
    }
  }

  /** The link is `n` bytes into frame `k`, and `data` is delivered, with `more` to come. */
  ghost predicate Receiving(t: Template, frames: seq<seq<byte>>, s: Rx, k: nat, n: nat, data: seq<byte>,
                            more: seq<byte>) {
    var receiving :=
      && t.hasParser && Frames(t, frames) && Aligned(t, frames, s, k, n) && Within(frames, k, n) && Inv(t, s)
      && 0 < |data| <= TCP_BUFFER_SIZE && ToCome(frames, k, n, data + more) && k < |frames|;
    receiving
  }

  /** A delivery that ends inside frame `k`. */
  lemma {:induction false} ChunkInside(t: Template, frames: seq<seq<byte>>, s: Rx, k: nat, n: nat,
                                       data: seq<byte>, more: seq<byte>) returns (s': Rx)
    requires Receiving(t, frames, s, k, n, data, more)
    requires !MidLargeHeader(t, frames, k, n) || n + |data| < t.cb
    requires k < |frames| && n + |data| < |frames[k]|
    ensures Aligned(t, frames, s', k, n + |data|) && Inv(t, s')
    ensures RxChunk(t, s, data) == Open(s') && ToCome(frames, k, n + |data|, more)
  {
    StepInside(t, frames, s, k, n, data, more);
    s' := ParsePkt(t, s, data).0;
    RxChunkStep(t, s, data, s', 0);
  }

  /** The rest of a delivery once frame `k` is complete. */
  lemma {:induction false} ChunkAcross(t: Template, frames: seq<seq<byte>>, s: Rx, k: nat, n: nat,
                                       data: seq<byte>, more: seq<byte>) returns (s': Rx, left: int)
    requires Receiving(t, frames, s, k, n, data, more) && !MidLargeHeader(t, frames, k, n)
    requires k < |frames| && n < |frames[k]| <= n + |data|
    ensures 0 <= left < |data| && left == n + |data| - |frames[k]|
    ensures Aligned(t, frames, s', k + 1, 0) && Inv(t, s')
    ensures RxChunk(t, s, data) == if left == 0 then Open(s') else RxChunk(t, s', data[|data| - left..])
    ensures ToCome(frames, k + 1, 0, data[|data| - left..] + more)
  {
    StepAcross(t, frames, s, k, n, data, more);
    s', left := ParsePkt(t, s, data).0, ParsePkt(t, s, data).1;
    RxChunkStep(t, s, data, s', left);
    assert |frames[k]| - n == |data| - left;
  }

  /** Where a delivery of `m` bytes from byte `n` of frame `k` on has left the link. */
  ghost predicate Arrived(t: Template, frames: seq<seq<byte>>, o: Outcome, k: nat, n: nat, m: nat,
                          k': nat, n': nat, more: seq<byte>)
    requires Frames(t, frames) && k <= |frames|
  {
    var arrived :=
      && o.Open? && Aligned(t, frames, o.s, k', n') && Within(frames, k', n') && ToCome(frames, k', n', more)
      && Offset(frames, k') + n' == Offset(frames, k) + n + m;
    arrived
  }

  lemma {:induction false} ArrivedInside(t: Template, frames: seq<seq<byte>>, s: Rx, k: nat, n: nat, m: nat,
                                         more: seq<byte>)
    requires Frames(t, frames) && k < |frames| && n + m < |frames[k]|
    requires Aligned(t, frames, s, k, n + m) && ToCome(frames, k, n + m, more)
    ensures Arrived(t, frames, Open(s), k, n, m, k, n + m, more)
  {
  }

  lemma {:induction false} ArrivedAcross(t: Template, frames: seq<seq<byte>>, o: Outcome, k: nat, n: nat, m: nat,
                                         left: nat,
                                         k': nat, n': nat, more: seq<byte>)
    requires Frames(t, frames) && k < |frames| && n < |frames[k]| && n + m == |frames[k]| + left
    requires Arrived(t, frames, o, k + 1, 0, left, k', n', more)
    ensures Arrived(t, frames, o, k, n, m, k', n', more)
  {
  }

  lemma {:induction false} ArrivedNext(t: Template, frames: seq<seq<byte>>, s: Rx, k: nat, more: seq<byte>)
    requires Frames(t, frames) && k <= |frames| && Within(frames, k, 0)
    requires Aligned(t, frames, s, k, 0) && ToCome(frames, k, 0, more)
    ensures Arrived(t, frames, Open(s), k, 0, 0, k, 0, more)
  {
  }

  lemma {:induction false} AlignedInside(t: Template, frames: seq<seq<byte>>, s: Rx, k: nat, n: nat,
                                         data: seq<byte>, more: seq<byte>)
    requires Receiving(t, frames, s, k, n, data, more) && !MidLargeHeader(t, frames, k, n)
    requires k < |frames| && n + |data| < |frames[k]|
    ensures Arrived(t, frames, RxChunk(t, s, data), k, n, |data|, k, n + |data|, more)
  {
    var s' := ChunkInside(t, frames, s, k, n, data, more);
    ArrivedInside(t, frames, s', k, n, |data|, more);
  }

  lemma {:induction false} AlignedAcross(t: Template, frames: seq<seq<byte>>, s: Rx, k: nat, n: nat,
                                         data: seq<byte>, more: seq<byte>) returns (s': Rx, left: int)
    requires Receiving(t, frames, s, k, n, data, more) && !MidLargeHeader(t, frames, k, n)
    requires k < |frames| && n < |frames[k]| <= n + |data|
    ensures 0 <= left < |data| && left == n + |data| - |frames[k]|
    ensures if left == 0 then Arrived(t, frames, RxChunk(t, s, data), k, n, |data|, k + 1, 0, more)
      else Receiving(t, frames, s', k + 1, 0, data[|data| - left..], more) &&
           RxChunk(t, s, data) == RxChunk(t, s', data[|data| - left..])
  {
    s', left := ChunkAcross(t, frames, s, k, n, data, more);
    if left == 0 {
      assert data[|data|..] + more == more;
      ArrivedNext(t, frames, s', k + 1, more);
      ArrivedAcross(t, frames, RxChunk(t, s, data), k, n, |data|, 0, k + 1, 0, more);
    }
  }

  /** A delivery that does not start inside a large header leaves the link aligned again. */
  lemma {:induction false} ChunkAligned(t: Template, frames: seq<seq<byte>>, s: Rx, k: nat, n: nat,
                                        data: seq<byte>, more: seq<byte>) returns (k': nat, n': nat)
    requires Receiving(t, frames, s, k, n, data, more) && !MidLargeHeader(t, frames, k, n)
    ensures Arrived(t, frames, RxChunk(t, s, data), k, n, |data|, k', n', more)
    decreases |data|
  {
    if n + |data| < |frames[k]| {
      AlignedInside(t, frames, s, k, n, data, more);
      k', n' := k, n + |data|;
    } else {
      var s', left := AlignedAcross(t, frames, s, k, n, data, more);
      k', n' := k + 1, 0;
      if left != 0 {
        k', n' := ChunkAligned(t, frames, s', k + 1, 0, data[|data| - left..], more);
        ArrivedAcross(t, frames, RxChunk(t, s, data), k, n, |data|, left, k', n', more);
      }
    }
  }

  // ---------- byte accounting: what is lost cannot be posted ----------

  /** The bytes of the stream a posted packet accounts for. */
  ghost function Weight(t: Template, posted: seq<seq<byte>>): nat {
    if posted == [] then 0
    else Weight(t, posted[..|posted| - 1]) + |posted[|posted| - 1]| + (if t.fully then 0 else t.cb)
  }

  ghost function Held(t: Template, s: Rx): nat {
    Weight(t, s.posted) + |s.buf| + if s.lb.LargeBlock? then |s.lb.data| else 0
  }

  lemma {:induction false} WeightPost(t: Template, posted: seq<seq<byte>>, f: seq<byte>)
    requires |f| >= t.cb
    ensures Weight(t, posted + [Delivered(t, f)]) == Weight(t, posted) + |f|
  {
    assert (posted + [Delivered(t, f)])[..|posted|] == posted;
  }

  lemma {:induction false} BodyAccounts(t: Template, s: Rx, data: seq<byte>, rest: seq<byte>)
    requires t.cb <= |s.buf| && s.lb.NoBlock? && |data| <= |s.buf| + |rest|
    ensures var (s', left) := Body(t, s, data, rest);
      Held(t, s') + (if left > 0 then left else 0) <= Held(t, s) + |rest|
  {
    var p := t.parser(s.buf[..t.cb]);
    if p.UserSize? && |s.buf| <= p.n + t.cb <= |s.buf| + |rest| {
      WeightPost(t, s.posted, s.buf + rest[..p.n + t.cb - |s.buf|]);
    }
  }

  /** A call never accounts for more than it was given, whatever the bytes are. */
  lemma {:induction false} ParsePktAccounts(t: Template, s: Rx, data: seq<byte>)
    requires Inv(t, s) && 0 < |data| <= TCP_BUFFER_SIZE
    ensures var (s', left) := ParsePkt(t, s, data);
      Held(t, s') + (if left > 0 then left else 0) <= Held(t, s) + |data|
  {
    if t.cb == 0 && !t.hasParser {
      WeightPost(t, s.posted, data);
      assert Delivered(t, data) == data;
    } else if s.lb.LargeBlock? {
      if |data| + |s.lb.data| >= s.lb.size {
        WeightPost(t, s.posted, s.lb.data + data[..s.lb.size - |s.lb.data|]);
      }
    } else if |s.buf| + |data| >= t.cb {
      var used := if |s.buf| < t.cb then t.cb - |s.buf| else 0;
      assert ParsePkt(t, s, data) == Body(t, s.(buf := s.buf + data[..used]), data, data[used..]);
      BodyAccounts(t, s.(buf := s.buf + data[..used]), data, data[used..]);
    }
  }

  lemma {:induction false} RxChunkAccounts(t: Template, s: Rx, data: seq<byte>)
    requires Inv(t, s) && 0 < |data| <= TCP_BUFFER_SIZE
    ensures Held(t, RxChunk(t, s, data).s) <= Held(t, s) + |data|
    decreases |data|
  {
    var (s', left) := ParsePkt(t, s, data);
    RxChunkStep(t, s, data, s', left);
    ParsePktAccounts(t, s, data);
    if left > 0 {
      RxChunkAccounts(t, s', data[|data| - left..]);
    }
  }

  lemma {:induction false} RxAllAccounts(t: Template, s: Rx, chunks: seq<seq<byte>>)
    requires Inv(t, s) && Deliverable(chunks)
    ensures Held(t, RxAll(t, s, chunks).s) <= Held(t, s) + |Flatten(chunks)|
    decreases |chunks|
  {
    if chunks != [] {
      RxChunkAccounts(t, s, chunks[0]);
      var o := RxChunk(t, s, chunks[0]);
      if o.Open? {
        RxAllAccounts(t, o.s, chunks[1..]);
      }
    }
  }

  lemma {:induction false} WeightOfFrames(t: Template, frames: seq<seq<byte>>, k: nat)
    requires Frames(t, frames) && k <= |frames|
    ensures Weight(t, Payloads(t, frames[..k])) == Offset(frames, k)
  {
    if k > 0 {
      WeightOfFrames(t, frames, k - 1);
      PayloadsNext(t, frames, k - 1);
      WeightPost(t, Payloads(t, frames[..k - 1]), frames[k - 1]);
    }
  }

  lemma {:induction false} RestLength(frames: seq<seq<byte>>, k: nat, n: nat)
    requires k <= |frames| && (if k < |frames| then n <= |frames[k]| else n == 0)
    ensures Offset(frames, k) + n + |Rest(frames, k, n)| == Offset(frames, |frames|)
    decreases |frames| - k
  {
    if k < |frames| {
      RestLength(frames, k + 1, 0);
      if k + 1 < |frames| {
        assert frames[k + 1..][1..] == frames[k + 2..];
      }
    }
  }

  /** The call that completes the header of a large frame it did not start keeps only its
      own bytes: the `n` bytes held before are gone. */
  lemma {:induction false} LossyCall(t: Template, f: seq<byte>, n: nat, s: Rx, data: seq<byte>)
    requires t.hasParser && WellFormed(t, f) && Large(f) && Inv(t, s)
    requires 0 < n < t.cb <= n + |data| && s.lb == NoBlock && s.buf == f[..n]
    requires var m := Min(|data|, |f| - n); data[..m] == f[n..n + m]
    ensures ParsePkt(t, s, data) == (Rx([], LargeBlock(data, |f|), s.posted), 0)
  {
    HeaderArrives(t, f, n, data);
    var used := t.cb - n;
    assert ParsePkt(t, s, data) == Body(t, s.(buf := s.buf + data[..used]), data, data[used..]);
  }

  lemma {:induction false} RxAllStep(t: Template, s: Rx, chunks: seq<seq<byte>>)
    requires Inv(t, s) && Deliverable(chunks) && |Flatten(chunks)| > 0
    ensures chunks != [] && 0 < |chunks[0]| <= TCP_BUFFER_SIZE && Deliverable(chunks[1..])
    ensures Flatten(chunks) == chunks[0] + Flatten(chunks[1..])
    ensures var o := RxChunk(t, s, chunks[0]);
      RxAll(t, s, chunks) == if o.Closed? then o else RxAll(t, o.s, chunks[1..])
  {
  }

  /** The link is `n` bytes into frame `k`, and the deliveries to come hold the rest. */
  ghost predicate Facing(t: Template, frames: seq<seq<byte>>, s: Rx, k: nat, n: nat, chunks: seq<seq<byte>>) {
    var facing :=
      && t.hasParser && Frames(t, frames) && Aligned(t, frames, s, k, n) && Within(frames, k, n) && Inv(t, s)
      && Deliverable(chunks) && ToCome(frames, k, n, Flatten(chunks));
    facing
  }

  lemma {:induction false} CutHere(t: Template, frames: seq<seq<byte>>, s: Rx, k: nat, n: nat, chunks: seq<seq<byte>>)
    requires Facing(t, frames, s, k, n, chunks)
    requires MidLargeHeader(t, frames, k, n) && chunks != [] && t.cb <= n + |chunks[0]|
    ensures Weight(t, RxAll(t, s, chunks).s.posted) < Offset(frames, |frames|)
  {
    var data, more, f := chunks[0], Flatten(chunks[1..]), frames[k];
    LineUp(f, n, Flatten(frames[k + 1..]), data, more);
    LossyCall(t, f, n, s, data);
    RxChunkStep(t, s, data, Rx([], LargeBlock(data, |f|), s.posted), 0);
    RxAllAccounts(t, RxChunk(t, s, data).s, chunks[1..]);
    WeightOfFrames(t, frames, k);
    RestLength(frames, k, n);
  }

  /** A large frame whose header was cut: the bytes held before the cut are dropped, so the
      link can never post all frames. */
  lemma {:induction false} CutHeaderLoses(t: Template, frames: seq<seq<byte>>, s: Rx, k: nat, n: nat,
                                          chunks: seq<seq<byte>>)
    requires Facing(t, frames, s, k, n, chunks) && MidLargeHeader(t, frames, k, n)
    ensures Weight(t, RxAll(t, s, chunks).s.posted) < Offset(frames, |frames|)
    decreases |chunks|
  {
    RestLength(frames, k, n);
    RxAllStep(t, s, chunks);
    var data := chunks[0];
    if n + |data| < t.cb {
      var s' := ChunkInside(t, frames, s, k, n, data, Flatten(chunks[1..]));
      CutHeaderLoses(t, frames, s', k, n + |data|, chunks[1..]);
    } else {
      CutHere(t, frames, s, k, n, chunks);
    }
  }

  // ---------- the theorem ----------

  /** A position falls inside a large header exactly when it is inside that of its own frame. */
  lemma {:induction false} CutWithin(t: Template, frames: seq<seq<byte>>, k: nat, n: nat)
    requires Within(frames, k, n) && forall i :: 0 <= i < |frames| ==> |frames[i]| > t.cb
    ensures CutsLargeHeader(t, frames, Offset(frames, k) + n) <==> MidLargeHeader(t, frames, k, n)
  {
    var c := Offset(frames, k) + n;
    if MidLargeHeader(t, frames, k, n) {
      assert InLargeHeader(t, frames, k, c);
    } else if CutsLargeHeader(t, frames, c) {
      var j :| 0 <= j < |frames| && InLargeHeader(t, frames, j, c);
      if j < k {
        OffsetMonotone(frames, j + 1, k);
      } else if k < j {
        OffsetMonotone(frames, k + 1, j);
      }
    }
  }

  ghost predicate WholeFrom(t: Template, frames: seq<seq<byte>>, chunks: seq<seq<byte>>, i: nat) {
    forall j :: i <= j < |chunks| ==> !CutsLargeHeader(t, frames, Offset(chunks, j))
  }

  lemma {:induction false} WholeNext(t: Template, frames: seq<seq<byte>>, chunks: seq<seq<byte>>, i: nat, k: nat,
                                     n: nat)
    requires i < |chunks| && Within(frames, k, n) && forall i :: 0 <= i < |frames| ==> |frames[i]| > t.cb
    requires Offset(frames, k) + n == Offset(chunks, i)
    ensures WholeFrom(t, frames, chunks, i) <==>
      !MidLargeHeader(t, frames, k, n) && WholeFrom(t, frames, chunks, i + 1)
  {
    CutWithin(t, frames, k, n);
  }

  lemma {:induction false} RxAllNext(t: Template, s: Rx, chunks: seq<seq<byte>>, i: nat)
    requires Inv(t, s) && Deliverable(chunks) && i < |chunks|
    requires RxChunk(t, s, chunks[i]).Open?
    ensures RxAll(t, s, chunks[i..]) == RxAll(t, RxChunk(t, s, chunks[i]).s, chunks[i + 1..])
    ensures Flatten(chunks[i..]) == chunks[i] + Flatten(chunks[i + 1..])
  {
    assert chunks[i..][0] == chunks[i] && chunks[i..][1..] == chunks[i + 1..];
  }

  lemma {:induction false} LostIsNotPosted(t: Template, frames: seq<seq<byte>>, posted: seq<seq<byte>>)
    requires Frames(t, frames) && Weight(t, posted) < Offset(frames, |frames|)
    ensures posted != Payloads(t, frames)
  {
    WeightOfFrames(t, frames, |frames|);
    assert frames[..|frames|] == frames;
  }

  /** Whether the posted packets are the frames, which leaves the link idle. */
  ghost predicate Reassembled(t: Template, frames: seq<seq<byte>>, o: Outcome, whole: bool)
    requires Frames(t, frames)
  {
    match o
    case Open(s) => if whole then s == Rx([], NoBlock, Payloads(t, frames)) else s.posted != Payloads(t, frames)
    case Closed(s) => !whole && s.posted != Payloads(t, frames)
  }

  /** The deliveries before the `i`-th have left the link `n` bytes into frame `k`. */
  ghost predicate OnTrack(t: Template, frames: seq<seq<byte>>, chunks: seq<seq<byte>>, i: nat, s: Rx, k: nat, n: nat) {
    var onTrack :=
      && i <= |chunks| && Deliverable(chunks) && Facing(t, frames, s, k, n, chunks[i..])
      && Within(frames, k, n) && Offset(frames, k) + n == Offset(chunks, i);
    onTrack
  }

  /** A cut inside a large header is fatal for the whole. */
  lemma {:induction false} ReassemblyCut(t: Template, frames: seq<seq<byte>>, chunks: seq<seq<byte>>, i: nat, s: Rx,
                                         k: nat, n: nat)
    requires OnTrack(t, frames, chunks, i, s, k, n) && i < |chunks| && MidLargeHeader(t, frames, k, n)
    ensures !WholeFrom(t, frames, chunks, i) && Reassembled(t, frames, RxAll(t, s, chunks[i..]), false)
  {
    CutHeaderLoses(t, frames, s, k, n, chunks[i..]);
    LostIsNotPosted(t, frames, RxAll(t, s, chunks[i..]).s.posted);
    WholeNext(t, frames, chunks, i, k, n);
  }

  /** A cut anywhere else only moves the link on. */
  lemma {:induction false} ReassemblyNext(t: Template, frames: seq<seq<byte>>, chunks: seq<seq<byte>>, i: nat, s: Rx,
                                          k: nat, n: nat)
    returns (s': Rx, k': nat, n': nat)
    requires OnTrack(t, frames, chunks, i, s, k, n) && i < |chunks| && !MidLargeHeader(t, frames, k, n)
    ensures OnTrack(t, frames, chunks, i + 1, s', k', n')
    ensures RxAll(t, s, chunks[i..]) == RxAll(t, s', chunks[i + 1..])
    ensures WholeFrom(t, frames, chunks, i) <==> WholeFrom(t, frames, chunks, i + 1)
  {
    assert chunks[i..][0] == chunks[i] && chunks[i..][1..] == chunks[i + 1..];
    k', n' := ChunkAligned(t, frames, s, k, n, chunks[i], Flatten(chunks[i + 1..]));
    s' := RxChunk(t, s, chunks[i]).s;
    RxAllNext(t, s, chunks, i);
    WholeNext(t, frames, chunks, i, k, n);
  }

  lemma {:induction false} ReassemblyEnd(t: Template, frames: seq<seq<byte>>, chunks: seq<seq<byte>>, s: Rx, k: nat,
                                         n: nat)
    requires OnTrack(t, frames, chunks, |chunks|, s, k, n)
    ensures WholeFrom(t, frames, chunks, |chunks|) && Reassembled(t, frames, RxAll(t, s, chunks[|chunks|..]), true)
  {
    if k == |frames| {
      assert frames[..k] == frames;
    }
  }

  lemma {:induction false} ReassemblyFrom(t: Template, frames: seq<seq<byte>>, chunks: seq<seq<byte>>, i: nat,
                                          s: Rx, k: nat, n: nat)
    requires OnTrack(t, frames, chunks, i, s, k, n)
    ensures Reassembled(t, frames, RxAll(t, s, chunks[i..]), WholeFrom(t, frames, chunks, i))
    decreases |chunks| - i
  {
    if i == |chunks| {
      ReassemblyEnd(t, frames, chunks, s, k, n);
    } else if MidLargeHeader(t, frames, k, n) {
      ReassemblyCut(t, frames, chunks, i, s, k, n);
    } else {
      var s', k', n' := ReassemblyNext(t, frames, chunks, i, s, k, n);
      ReassemblyFrom(t, frames, chunks, i + 1, s', k', n');
    }
  }

  /** The same for the whole stream. */
  lemma {:induction false} FramesReassembly(t: Template, frames: seq<seq<byte>>, chunks: seq<seq<byte>>)
    requires t.hasParser && Frames(t, frames) && Deliverable(chunks)
    requires Flatten(chunks) == Flatten(frames)
    ensures RxAll(t, FRESH, chunks).s.posted == Payloads(t, frames) <==> HeadersWhole(t, frames, chunks)
    ensures HeadersWhole(t, frames, chunks) ==>
      RxAll(t, FRESH, chunks) == Open(Rx([], NoBlock, Payloads(t, frames)))
  {
    assert chunks[0..] == chunks;
    assert Rest(frames, 0, 0) == Flatten(frames);
    assert Aligned(t, frames, FRESH, 0, 0);
    ReassemblyFrom(t, frames, chunks, 0, FRESH, 0, 0);
  }

  /** The frames of these headers and bodies. */
  function Stitched(headers: seq<seq<byte>>, bodies: seq<seq<byte>>): (frames: seq<seq<byte>>)
    requires |headers| == |bodies|
    ensures |frames| == |headers|
  {
    seq(|headers|, i requires 0 <= i < |headers| => headers[i] + bodies[i])
  }

  /** Every header is whole and says how long its body is. */
  ghost predicate Announced(t: Template, headers: seq<seq<byte>>, bodies: seq<seq<byte>>) {
    |headers| == |bodies| && forall i :: 0 <= i < |headers| ==>
      && |headers[i]| == t.cb && t.parser(headers[i]) == UserSize(|bodies[i]|)
      && 0 < |bodies[i]| <= TCP_MAXIMUM_PACKET_SIZE
  }

  /** The user is given the bodies in order, with their headers if the link is set to that. */
  ghost predicate UserGets(t: Template, headers: seq<seq<byte>>, bodies: seq<seq<byte>>, posted: seq<seq<byte>>)
    requires |headers| == |bodies|
  {
    |posted| == |bodies| && forall i :: 0 <= i < |bodies| ==>
      posted[i] == if t.fully then headers[i] + bodies[i] else bodies[i]
  }

  lemma {:induction false} StitchedFrames(t: Template, headers: seq<seq<byte>>, bodies: seq<seq<byte>>)
    requires Announced(t, headers, bodies)
    ensures Frames(t, Stitched(headers, bodies))
    ensures UserGets(t, headers, bodies, Payloads(t, Stitched(headers, bodies)))
  {
    var frames := Stitched(headers, bodies);
    forall i | 0 <= i < |frames| ensures WellFormed(t, frames[i]) {
      assert frames[i][..t.cb] == headers[i];
    }
    forall i | 0 <= i < |frames| ensures frames[i][t.cb..] == bodies[i] {
    }
  }

  /** Reassembly does not depend on chunking: the user is given the bodies, in order,
      exactly when no delivery starts inside the header of a frame larger than the buffer. */
  lemma {:induction false} Reassembly(t: Template, headers: seq<seq<byte>>, bodies: seq<seq<byte>>,
                                      chunks: seq<seq<byte>>)
    requires t.hasParser && Announced(t, headers, bodies) && Deliverable(chunks)
    requires Flatten(chunks) == Flatten(Stitched(headers, bodies))
    ensures UserGets(t, headers, bodies, RxAll(t, FRESH, chunks).s.posted) <==>
      HeadersWhole(t, Stitched(headers, bodies), chunks)
    ensures HeadersWhole(t, Stitched(headers, bodies), chunks) ==>
      RxAll(t, FRESH, chunks).Open? && RxAll(t, FRESH, chunks).s.buf == [] && RxAll(t, FRESH, chunks).s.lb == NoBlock
  {
    var frames, posted := Stitched(headers, bodies), RxAll(t, FRESH, chunks).s.posted;
    StitchedFrames(t, headers, bodies);
    FramesReassembly(t, frames, chunks);
    if UserGets(t, headers, bodies, posted) {
      assert posted == Payloads(t, frames);
    }
  }

  /** A link without a template hands on every delivery as it is. */
  lemma {:induction false} RawFrom(t: Template, posted: seq<seq<byte>>, chunks: seq<seq<byte>>)
    requires t.cb == 0 && !t.hasParser && Deliverable(chunks)
    ensures Inv(t, Rx([], NoBlock, posted))
    ensures RxAll(t, Rx([], NoBlock, posted), chunks) == Open(Rx([], NoBlock, posted + chunks))
    decreases |chunks|
  {
    if chunks == [] {
      assert posted + [] == posted;
    } else {
      var s := Rx([], NoBlock, posted);
      RxChunkStep(t, s, chunks[0], Rx([], NoBlock, posted + [chunks[0]]), 0);
      RawFrom(t, posted + [chunks[0]], chunks[1..]);
      assert posted + [chunks[0]] + chunks[1..] == posted + chunks;
    }
  }

  /** Its posted packets, one after the other, are the stream. */
  lemma {:induction false} RawStream(t: Template, chunks: seq<seq<byte>>)
    requires t.cb == 0 && !t.hasParser && Deliverable(chunks)
    ensures RxAll(t, FRESH, chunks).Open? && Flatten(RxAll(t, FRESH, chunks).s.posted) == Flatten(chunks)
  {
    RawFrom(t, [], chunks);
    assert [] + chunks == chunks;
  }

  /** Between two frames, a header that the link cannot take closes it as soon as it is whole, in
      however many deliveries it comes; nothing more is posted. */
  lemma {:induction false} BadHeaderCloses(t: Template, held: seq<byte>, posted: seq<seq<byte>>, chunks: seq<seq<byte>>)
    requires t.hasParser && Deliverable(chunks) && (held == [] || |held| < t.cb)
    requires var all := held + Flatten(chunks);
      t.cb <= |all| && chunks != [] && !TakesHeader(t, all[..t.cb])
    ensures Inv(t, Rx(held, NoBlock, posted))
    ensures var o := RxAll(t, Rx(held, NoBlock, posted), chunks); o.Closed? && o.s.posted == posted
    decreases |chunks|
  {
    var s, data := Rx(held, NoBlock, posted), chunks[0];
    var all := held + Flatten(chunks);
    assert all == held + data + Flatten(chunks[1..]);
    ClosesIff(t, s, data);
    RxChunkStep(t, s, data, ParsePkt(t, s, data).0, ParsePkt(t, s, data).1);
    if |held| + |data| < t.cb {
      assert chunks[1..] != [];
      BadHeaderCloses(t, held + data, posted, chunks[1..]);
    } else {
      assert all[..t.cb] == (held + data)[..t.cb];
    }
  }

  /** A concrete stream that is not reassembled: one frame a byte larger than the buffer,
      cut after the first byte of its four-byte header. */
  lemma {:induction false} CutHeaderExample()
    ensures var t := Template(4, true, _ => UserSize(69629), true);
      var frame: seq<byte> := seq(69633, _ => 0);
      var chunks := [frame[..1], frame[1..]];
      && t.hasParser && Frames(t, [frame]) && Deliverable(chunks) && Flatten(chunks) == Flatten([frame])
      && RxAll(t, FRESH, chunks).s.posted != Payloads(t, [frame])
  {
    var t := Template(4, true, _ => UserSize(69629), true);
    var frame: seq<byte> := seq(69633, _ => 0);
    var chunks := [frame[..1], frame[1..]];
    assert chunks[1..] == [frame[1..]] && chunks[1..][1..] == [] && [frame][1..] == [];
    assert frame[..1] + frame[1..] == frame;
    assert frame[1..] + [] == frame[1..] && frame + [] == frame;
    FramesReassembly(t, [frame], chunks);
    assert Offset([frame], 0) == 0 && Offset(chunks, 1) == Offset(chunks, 0) + |chunks[0]| == 1;
    assert InLargeHeader(t, [frame], 0, Offset(chunks, 1));
  }

  // ---------- the link ----------

  /** memcpy into a buffer. */
  method Copy(dst: array<byte>, off: nat, src: seq<byte>)
    requires off + |src| <= dst.Length
    modifies dst
    ensures dst[..] == Overlay(old(dst[..]), off, src)
  {
    for i := 0 to |src|
      invariant dst[..] == Overlay(old(dst[..]), off, src[..i])
    {
      dst[off + i] := src[i];
    }
    assert src[..|src|] == src;
  }

  class Link {
    const template: Template
    var rxParseBuffer: array<byte>
    var rxParseOffset: nat
    var lbdata: array?<byte>
    var lboffset: nat
    var lbsize: nat
    var posted: seq<seq<byte>>

    ghost predicate Valid()
      reads this
    {
      && template.cb <= TCP_MAXIMUM_TEMPLATE_SIZE
      && rxParseBuffer.Length == TCP_BUFFER_SIZE && rxParseOffset <= TCP_BUFFER_SIZE
      && rxParseBuffer != lbdata
      && (lbdata == null ==> lbsize == 0)
      && (lbdata != null ==> lbdata.Length == lbsize && 0 < lboffset <= lbsize)
    }

    ghost function State(): Rx
      requires Valid()
      reads this, rxParseBuffer, lbdata
    {
      Rx(rxParseBuffer[..rxParseOffset],
         if lbdata == null then NoBlock else LargeBlock(lbdata[..lboffset], lbsize), posted)
    }

    ghost function Buffers(): set<object>
      reads this
    {
      if lbdata == null then {this, rxParseBuffer} else var lb: array<byte> := lbdata; {this, rxParseBuffer, lb}
    }

    constructor (template: Template)
      requires template.cb <= TCP_MAXIMUM_TEMPLATE_SIZE
      ensures Valid() && this.template == template && State() == FRESH && fresh(Buffers())
    {
      this.template := template;
      rxParseBuffer, rxParseOffset := new byte[TCP_BUFFER_SIZE], 0;
      lbdata, lboffset, lbsize := null, 0, 0;
      posted := [];
    }

    /** ncb_post_recvdata: the packet is handed to the user. */
    method Post(packet: seq<byte>)
      modifies this`posted
      ensures posted == old(posted) + [packet]
    {
      posted := posted + [packet];
    }

    method ParseMarkedLb(data: seq<byte>) returns (left: int)
      requires Valid() && lbdata != null && lboffset < lbsize && template.cb <= lbsize
      modifies this`lbdata, this`lboffset, this`lbsize, this`posted, lbdata
      ensures Valid() && fresh(Buffers() - old(Buffers()))
      ensures (State(), left) == ParseMarked(template, old(State()), data)
    {
      if |data| + lboffset < lbsize {
        Copy(lbdata, lboffset, data);
        lboffset := lboffset + |data|;
        assert lbdata[..lboffset] == old(lbdata[..lboffset]) + data;
        return 0;
      }
      var overplus := lbsize - lboffset;
      Copy(lbdata, lboffset, data[..overplus]);
      assert lbdata[..] == old(lbdata[..lboffset]) + data[..overplus];
      Post(if template.fully then lbdata[..] else lbdata[template.cb..]);
      lbdata, lboffset, lbsize := null, 0, 0;
      left := |data| - overplus;
    }

    /** tcp_parse_pkt, on the buffers of the link. */
    method Parse(data: seq<byte>) returns (left: int)
      requires Valid() && Inv(template, State()) && |data| <= TCP_BUFFER_SIZE
      modifies Buffers()
      ensures Valid() && fresh(Buffers() - old(Buffers()))
      ensures (State(), left) == ParsePkt(template, old(State()), data)
    {
      if data == [] {
        return -1;
      }
      if template.cb == 0 && !template.hasParser {
        Post(data);
        rxParseOffset := 0;
        return 0;
      }
      if lbdata != null && lbsize > 0 {
        left := ParseMarkedLb(data);
        return;
      }
      if rxParseOffset + |data| < template.cb {
        Append(data);
        return 0;
      }
      var rest := data;
      if rxParseOffset < template.cb {
        var used := template.cb - rxParseOffset;
        Append(data[..used]);
        rest := data[used..];
      } else {
        assert rxParseBuffer[..rxParseOffset] + data[..0] == rxParseBuffer[..rxParseOffset];
      }
      left := ParseBody(data, rest);
    }

    /** Put bytes behind those already in the parse buffer. */
    method Append(data: seq<byte>)
      requires Valid() && rxParseOffset + |data| <= TCP_BUFFER_SIZE
      modifies this`rxParseOffset, rxParseBuffer
      ensures Valid() && State() == old(State()).(buf := old(State()).buf + data)
      ensures rxParseOffset == old(rxParseOffset) + |data|
    {
      Copy(rxParseBuffer, rxParseOffset, data);
      rxParseOffset := rxParseOffset + |data|;
      assert rxParseBuffer[..rxParseOffset] == old(rxParseBuffer[..rxParseOffset]) + data;
    }

    /** The part of tcp_parse_pkt that runs once the header is in the parse buffer. */
    method ParseBody(data: seq<byte>, rest: seq<byte>) returns (left: int)
      requires Valid() && lbdata == null && template.cb <= rxParseOffset && 0 < |data| <= TCP_BUFFER_SIZE
      requires |rest| <= |data| && rest == data[|data| - |rest|..]
      requires var p := template.parser(State().buf[..template.cb]);
        template.hasParser && p.UserSize? && Legal(p.n) && p.n + template.cb <= TCP_BUFFER_SIZE ==>
        rxParseOffset < p.n + template.cb
      modifies Buffers()
      ensures Valid() && fresh(Buffers() - old(Buffers()))
      ensures (State(), left) == Body(template, old(State()), data, rest)
    {
      ghost var s := State();
      if !template.hasParser {
        return -1;
      }
      assert rxParseBuffer[..rxParseOffset][..template.cb] == rxParseBuffer[..template.cb];
      var p := template.parser(rxParseBuffer[..template.cb]);
      if p.Malformed? || p.n > TCP_MAXIMUM_PACKET_SIZE || p.n <= 0 {
        return -1;
      }
      var total := p.n + template.cb;
      if total > TCP_BUFFER_SIZE {
        lbdata := new byte[total];
        lbsize := total;
        Copy(lbdata, 0, data);
        lboffset := |data|;
        assert lbdata[..lboffset] == data;
        rxParseOffset := 0;
        return 0;
      }
      if rxParseOffset + |rest| >= total {
        var more := total - rxParseOffset;
        Append(rest[..more]);
        Post(if template.fully then rxParseBuffer[..total] else rxParseBuffer[template.cb..total]);
        rxParseOffset := 0;
        return |rest| - more;
      }
      Append(rest);
      left := 0;
    }

    /** _tcp_rx: one delivery from the socket. */
    method Receive(data: seq<byte>) returns (open: bool)
      requires Valid() && Inv(template, State()) && 0 < |data| <= TCP_BUFFER_SIZE
      modifies Buffers()
      ensures Valid() && fresh(Buffers() - old(Buffers()))
      ensures RxChunk(template, old(State()), data) == if open then Open(State()) else Closed(State())
    {
      var offset, cpcb := 0, |data|;
      ghost var want, rem := RxChunk(template, State(), data), data;
      while true
        invariant Valid() && fresh(Buffers() - old(Buffers())) && Inv(template, State())
        invariant 0 < cpcb && offset + cpcb == |data| && rem == data[offset..]
        invariant RxChunk(template, State(), rem) == want
        decreases cpcb
      {
        ghost var s := State();
        var overplus := Parse(data[offset..]);
        RxChunkStep(template, s, rem, State(), overplus);
        if overplus < 0 {
          return false;
        }
        if overplus == 0 {
          return true;
        }
        rem := rem[|rem| - overplus..];
        offset := offset + (cpcb - overplus);
        cpcb := overplus;
      }
    }
  }
}
