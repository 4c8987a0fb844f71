/** The generated RPC runtime end to end: stubs, queue, sending thread, receive loop and stubs. */
module RpcEndToEnd {
  import opened CInt
  import opened RpcFrames
  import opened RpcTransport
  import opened RpcReceive

  /** One request or response to send: a header (its magic field holding the descriptor), the signature of the
      function, and one value per argument, of which a request carries those of the in arguments and a response those
      of the out arguments. */
  datatype Post = Post(h: Hdr, sig: seq<Arg>, all: seq<Value>) {
    function Types(): seq<ArgType> { Side(sig, h.isResp) }

    function Vals(): seq<Value>
      requires |all| == |sig|
    {
      Carried(sig, all, h.isResp)
    }
  }

  predicate Postable(p: Post) {
    HdrFits(p.h) && |p.all| == |p.sig| && FitsAll(p.Types(), p.Vals()) && FrameSize(p.Types(), p.Vals()) < MAX_FRAME
  }

  predicate AllPostable(posts: seq<Post>) {
    forall i :: 0 <= i < |posts| ==> Postable(posts[i])
  }

  function Queue(posts: seq<Post>): seq<seq<Byte>>
    requires AllPostable(posts)
  {
    if posts == [] then [] else [Frame(posts[0].h, posts[0].Types(), posts[0].Vals())] + Queue(posts[1..])
  }

  function PostsFor(posts: seq<Post>, fd: int): seq<Post> {
    if posts == [] then [] else (if posts[0].h.magic == fd then [posts[0]] else []) + PostsFor(posts[1..], fd)
  }

  /** The frame that reaches the peer. */
  function Delivered(p: Post): seq<Byte>
    requires Postable(p)
  {
    Frame(p.h.(magic := MAGIC), p.Types(), p.Vals())
  }

  lemma PatchedIsDelivered(p: Post)
    requires Postable(p)
    ensures FdOf(Frame(p.h, p.Types(), p.Vals())) == p.h.magic
    ensures Patched(Frame(p.h, p.Types(), p.Vals())) == Delivered(p)
    ensures Sendable(Delivered(p)) && |Delivered(p)| < MAX_FRAME
  {
    hide Word, ReadWord, Fixed, Extra, FitsAll;
    var frame := Frame(p.h, p.Types(), p.Vals());
    WordReadsBack(p.h.magic);
    assert frame[..4] == Word(p.h.magic);
    FrameIsSendable(p.h.(magic := MAGIC), p.Types(), p.Vals());
  }

  function DeliveredAll(posts: seq<Post>): seq<seq<Byte>>
    requires AllPostable(posts)
  {
    if posts == [] then [] else [Delivered(posts[0])] + DeliveredAll(posts[1..])
  }

  lemma {:induction false} DeliveredAt(posts: seq<Post>, i: nat)
    requires AllPostable(posts) && i < |posts|
    ensures |DeliveredAll(posts)| == |posts| && DeliveredAll(posts)[i] == Delivered(posts[i])
  {
    hide Delivered;
    if posts[1..] != [] {
      DeliveredAt(posts[1..], if i == 0 then 0 else i - 1);
    }
  }

  /** The bytes for one descriptor are the frames of the posts to that descriptor. */
  lemma {:induction false} QueueForFd(posts: seq<Post>, fd: int)
    requires AllPostable(posts)
    ensures AllPostable(PostsFor(posts, fd)) && Queueable(Queue(posts))
    ensures ForFd(Queue(posts), fd) == DeliveredAll(PostsFor(posts, fd))
  {
    hide Delivered, Patched, FdOf;
    if posts != [] {
      QueueForFd(posts[1..], fd);
      PatchedIsDelivered(posts[0]);
      assert Queue(posts)[1..] == Queue(posts[1..]);
      if posts[0].h.magic == fd {
        assert PostsFor(posts, fd)[1..] == PostsFor(posts[1..], fd);
      } else {
        assert PostsFor(posts, fd) == PostsFor(posts[1..], fd);
      }
    }
  }

  /** What ReceiveLoop gets on a descriptor, and what the stub there decodes: exactly the values posted to
      that descriptor, in posting order, from any number of interleaved posts to other descriptors. */
  lemma PostsArrive(posts: seq<Post>, fd: int)
    requires AllPostable(posts)
    ensures Queueable(Queue(posts))
    ensures var r, mine := Parse(Concat(ForFd(Queue(posts), fd))), PostsFor(posts, fd);
            && r.ending == EndOfStream && |r.frames| == |mine| && AllPostable(mine)
            && forall i :: 0 <= i < |mine| ==> Decode(mine[i].Types(), r.frames[i]) == Some(mine[i].Vals())
  {
    hide Parse, Concat, ForFd, Queue, Decode, PostsFor;
    QueueForFd(posts, fd);
    var mine := PostsFor(posts, fd);
    var frames := DeliveredAll(mine);
    AllSendable(mine);
    FramesArriveInOrder(frames);
    forall i | 0 <= i < |mine| ensures Decode(mine[i].Types(), frames[i]) == Some(mine[i].Vals()) {
      DeliveredAt(mine, i);
      DeliveredDecodes(mine[i]);
    }
  }

  lemma {:induction false} AllSendable(posts: seq<Post>)
    requires AllPostable(posts)
    ensures |DeliveredAll(posts)| == |posts|
    ensures forall f :: f in DeliveredAll(posts) ==> Sendable(f) && |f| < MAX_FRAME
  {
    hide Sendable, Delivered;
    if posts != [] {
      PatchedIsDelivered(posts[0]);
      AllSendable(posts[1..]);
    }
  }

  lemma DeliveredDecodes(p: Post)
    requires Postable(p)
    ensures Decode(p.Types(), Delivered(p)) == Some(p.Vals())
  {
    UnpackPacks(p.Types(), p.Vals());
    var frame, n := Delivered(p), HEADER + FixedSize(p.Types());
    assert frame[HEADER..n] == Fixed(p.Types(), p.Vals());
    assert frame[n..] == Extra(p.Vals());
  }

  // --- the whole way --------------------------------------------------------------------------

  predicate AllBatchesPostable(batches: seq<seq<Post>>) {
    forall n :: 0 <= n < |batches| ==> AllPostable(batches[n])
  }

  function Queues(batches: seq<seq<Post>>): (r: seq<seq<seq<Byte>>>)
    requires AllBatchesPostable(batches)
    ensures |r| == |batches| && forall n :: 0 <= n < |r| ==> r[n] == Queue(batches[n])
  {
    seq(|batches|, n requires 0 <= n < |batches| => Queue(batches[n]))
  }

  lemma {:induction false} QueueAppend(a: seq<Post>, b: seq<Post>)
    requires AllPostable(a) && AllPostable(b)
    ensures AllPostable(a + b) && Queue(a + b) == Queue(a) + Queue(b)
  {
    hide Postable, Frame, HdrFits, FitsAll, FrameSize;
    if a == [] {
      assert a + b == b;
    } else {
      QueueAppend(a[1..], b);
      assert (a + b)[1..] == a[1..] + b;
    }
  }

  lemma {:induction false} QueueFlatten(batches: seq<seq<Post>>)
    requires AllBatchesPostable(batches)
    ensures AllPostable(Flatten(batches)) && Flatten(Queues(batches)) == Queue(Flatten(batches))
  {
    hide Postable;
    if batches != [] {
      QueueFlatten(batches[1..]);
      QueueAppend(batches[0], Flatten(batches[1..]));
      assert Queues(batches)[1..] == Queues(batches[1..]);
    }
  }

  /** Posts and their frames are queued alike. */
  lemma QueuedPosts(posts: seq<Post>, later: seq<seq<Post>>, n: nat)
    requires AllPostable(posts) && AllBatchesPostable(later)
    ensures AllPostable(Queued(posts, later, n))
    ensures Queued(Queue(posts), Queues(later), n) == Queue(Queued(posts, later, n))
    ensures |Queue(Queued(posts, later, n))| == |Queued(posts, later, n)|
  {
    hide Postable, Queue;
    var used := later[..Least(n, |later|)];
    QueueFlatten(used);
    QueueAppend(posts, Flatten(used));
    assert Queues(later)[..|used|] == Queues(used);
    QueueSize(posts + Flatten(used));
  }

  lemma {:induction false} QueueSize(posts: seq<Post>)
    requires AllPostable(posts)
    ensures |Queue(posts)| == |posts|
  {
    hide Frame, Postable;
    if posts != [] {
      QueueSize(posts[1..]);
    }
  }

  /** The queue of frames is found empty when the queue of posts would be. */
  lemma EmptyAlike(posts: seq<Post>, later: seq<seq<Post>>, n: nat)
    requires AllPostable(posts) && AllBatchesPostable(later)
    ensures EmptyAfter(Queue(posts), Queues(later), n) <==> EmptyAfter(posts, later, n)
  {
    hide Postable, Queue, Queued;
    forall m: nat ensures |Queued(Queue(posts), Queues(later), m)| == |Queued(posts, later, m)| {
      QueuedPosts(posts, later, m);
    }
  }

  /** Every post becomes a frame at the end of the queue. */
  method PostAll(q: SendQueue, posts: seq<Post>)
    requires AllPostable(posts) && q.pending == []
    modifies q
    ensures q.pending == Queue(posts)
  {
    hide Frame, HdrFits, FitsAll, FrameSize;
    assert posts[..0] == [];
    for i := 0 to |posts|
      invariant q.pending == Queue(posts[..i])
    {
      var frame := BuildFrame(posts[i].h, posts[i].Types(), posts[i].Vals());
      q.XSend(frame[..]);
      assert posts[..i + 1] == posts[..i] + [posts[i]] && [posts[i]][1..] == [];
      QueueAppend(posts[..i], [posts[i]]);
    }
    assert posts[..|posts|] == posts;
  }

  lemma QueuesQueueable(posts: seq<Post>, later: seq<seq<Post>>)
    requires AllPostable(posts) && AllBatchesPostable(later)
    ensures Queueable(Queue(posts)) && AllQueueable(Queues(later))
  {
    hide Postable, Queue, Queueable;
    QueueForFd(posts, 0);
    forall n | 0 <= n < |later| ensures Queueable(Queues(later)[n]) {
      QueueForFd(later[n], 0);
    }
  }

  /** Each stub handed on the arguments of its post, each at its place, and there is a stub for each post. */
  predicate Arrived(posts: seq<Post>, got: seq<Unpacked>)
    requires AllPostable(posts)
  {
    && |got| == |posts|
    && forall i :: 0 <= i < |posts| ==>
         got[i].Values? && AreArguments(posts[i].sig, posts[i].all, posts[i].h.isResp, got[i].vals)
  }

  predicate HaveVals(posts: seq<Post>, got: seq<Unpacked>)
    requires AllPostable(posts)
  {
    |got| == |posts| && forall i :: 0 <= i < |posts| ==> got[i] == Values(posts[i].Vals())
  }

  lemma ArrivedVals(posts: seq<Post>, got: seq<Unpacked>)
    requires AllPostable(posts)
    ensures Arrived(posts, got) <==> HaveVals(posts, got)
  {
    hide AreArguments, Carried, FitsAll, FrameSize;
    if |got| == |posts| {
      forall i | 0 <= i < |posts|
        ensures got[i].Values? && AreArguments(posts[i].sig, posts[i].all, posts[i].h.isResp, got[i].vals)
                <==> got[i] == Values(posts[i].Vals())
      {
        if got[i].Values? {
          CarriedIff(posts[i].sig, posts[i].all, posts[i].h.isResp, got[i].vals);
        } else {
          assert got[i] != Values(posts[i].Vals());
        }
      }
    }
  }

  /** The stubs hand on what the frames decode to. */
  predicate AreDecoded(posts: seq<Post>, frames: seq<seq<Byte>>, got: seq<Unpacked>) {
    && |got| == Least(|posts|, |frames|)
    && forall i :: 0 <= i < |got| ==>
         (if got[i].Values? then Decode(posts[i].Types(), frames[i]) == Some(got[i].vals)
          else Decode(posts[i].Types(), frames[i]) == None)
  }

  /** The receiving stubs, one per frame, each for the signature its frame was posted with. */
  method UnpackAll(posts: seq<Post>, frames: seq<seq<Byte>>) returns (got: seq<Unpacked>)
    requires AllPostable(posts) && forall f :: f in frames ==> |f| < WORDS
    ensures AreDecoded(posts, frames, got)
  {
    hide Decode, Accepts, FitsAll;
    got := [];
    for i := 0 to Least(|frames|, |posts|)
      invariant |got| == i
      invariant forall j :: 0 <= j < i ==>
                  (if got[j].Values? then Decode(posts[j].Types(), frames[j]) == Some(got[j].vals)
                   else Decode(posts[j].Types(), frames[j]) == None)
    {
      assert frames[i] in frames && Postable(posts[i]);
      var r := UnpackFrame(posts[i].Types(), frames[i]);
      got := got + [r];
    }
  }

  /** A frame that decodes to values is at least as long as the frame made of them. */
  lemma {:induction false} UnpackNeeds(types: seq<ArgType>, fixed: seq<Byte>, extra: seq<Byte>, vals: seq<Value>)
    requires FitsAll(types, vals) && |fixed| == FixedSize(types) && Unpack(types, fixed, extra) == Some(vals)
    ensures |Extra(vals)| <= |extra|
    decreases |types|
  {
    hide ReadWord, Word;
    if types != [] {
      FixedStep(types, vals);
      var n := FieldSize(types[0]);
      if types[0].Scalar? {
        UnpackNeeds(types[1..], fixed[n..], extra, vals[1..]);
      } else {
        var len := ReadWord(fixed[..4]);
        UnpackNeeds(types[1..], fixed[n..], extra[len..], vals[1..]);
      }
    }
  }

  lemma DecodeNeeds(p: Post, frame: seq<Byte>)
    requires Postable(p) && Decode(p.Types(), frame) == Some(p.Vals())
    ensures |frame| >= |Delivered(p)|
  {
    hide Unpack, HeaderBytes, Fixed;
    var n := HEADER + FixedSize(p.Types());
    UnpackNeeds(p.Types(), frame[HEADER..n], frame[n..], p.Vals());
  }

  /** Frames that the posted values were read from hold at least as many bytes as were posted. */
  lemma {:induction false} ArrivedNeeds(posts: seq<Post>, frames: seq<seq<Byte>>, got: seq<Unpacked>)
    requires AllPostable(posts) && AreDecoded(posts, frames, got) && HaveVals(posts, got)
    ensures |Concat(frames)| >= |Concat(DeliveredAll(posts))|
    decreases |posts|
  {
    hide Decode, Delivered, FitsAll, FrameSize, Carried, Side;
    if posts != [] {
      assert got[0] == Values(posts[0].Vals());
      DecodeNeeds(posts[0], frames[0]);
      assert AreDecoded(posts[1..], frames[1..], got[1..]);
      ArrivedNeeds(posts[1..], frames[1..], got[1..]);
      assert DeliveredAll(posts)[1..] == DeliveredAll(posts[1..]);
    }
  }

  lemma DeliveredArrive(posts: seq<Post>, got: seq<Unpacked>)
    requires AllPostable(posts) && AreDecoded(posts, DeliveredAll(posts), got)
    ensures HaveVals(posts, got)
  {
    hide Decode, Delivered, FitsAll, FrameSize, Carried, Side, DeliveredAll;
    AllSendable(posts);
    forall i | 0 <= i < |posts| ensures got[i] == Values(posts[i].Vals()) {
      assert Postable(posts[i]);
      DeliveredAt(posts, i);
      DeliveredDecodes(posts[i]);
    }
  }

  /** The posts for a descriptor arrive, values and order, if and only if no send failed on it, the receive loop
      dropped no part of a header, and it left nothing unread. */
  lemma ArrivedIff(all: seq<Post>, fd: int, cuts: seq<nat>, shorts: seq<Short>, got: seq<Unpacked>)
    requires AllPostable(all) && Queueable(Queue(all)) && CutsFor(Queue(all), cuts)
    requires var r := Receive(Pieces(Queue(all), cuts, fd), shorts);
             AreDecoded(PostsFor(all, fd), r.received.frames, got)
    ensures var r := Receive(Pieces(Queue(all), cuts, fd), shorts);
            && AllPostable(PostsFor(all, fd))
            && (Arrived(PostsFor(all, fd), got) <==>
                  !FailedOn(Queue(all), cuts, fd) && r.dropped == [] && r.left == [])
  {
    hide Receive, Pieces, FailedOn, Queue, AreDecoded, Arrived, HaveVals;
    hide Kept, Concat, Postable, DeliveredAll, Sendable;
    var mine, bytes := PostsFor(all, fd), Pieces(Queue(all), cuts, fd);
    var r := Receive(bytes, shorts);
    QueueForFd(all, fd);
    var frames := DeliveredAll(mine);
    AllSendable(mine);
    PiecesOrLess(Queue(all), cuts, fd);
    ReceiveAddsUp(bytes, shorts);
    WholeFramesIff(frames, shorts);
    ArrivedVals(mine, got);
    if Arrived(mine, got) {
      ArrivedNeeds(mine, r.received.frames, got);
    }
    if !FailedOn(Queue(all), cuts, fd) && r.dropped == [] && r.left == [] {
      DeliveredArrive(mine, got);
    }
  }

  /** Where every send and every recv does what it was asked for, nothing fails and nothing is lost. */
  lemma NothingGoesWrong(all: seq<Post>, fd: int, answers: seq<int>)
    requires AllPostable(all) && Queueable(Queue(all)) && forall i :: 0 <= i < |answers| ==> answers[i] >= 0
    ensures var cuts := Cuts(Queue(all), answers).0;
            var r := Receive(Pieces(Queue(all), cuts, fd), []);
            !FailedOn(Queue(all), cuts, fd) && r.dropped == [] && r.left == []
  {
    hide Receive, Pieces, Queue, Cuts, Parse, Concat, Postable, DeliveredAll, Sendable;
    var cuts := Cuts(Queue(all), answers).0;
    AllWholeIff(Queue(all), answers);
    QueueForFd(all, fd);
    var frames := DeliveredAll(PostsFor(all, fd));
    AllSendable(PostsFor(all, fd));
    PiecesOrLess(Queue(all), cuts, fd);
    FramesArriveInOrder(frames);
    WithoutEagain(Concat(frames), []);
    WholeFramesIff(frames, []);
  }

  /** The stubs, the queue, the sending thread, a socket, the receive loop and the stubs behind it, together. The
      posts that come before the thread finds its queue empty all go out; those for a descriptor arrive, values and
      order, if and only if no call of send failed on it, no part of a header was dropped, and nothing was left
      unread. */
  method EndToEnd(posts: seq<Post>, later: seq<seq<Post>>, fd: int, answers: seq<int>, shorts: seq<Short>)
      returns (n: nat, failed: set<int>, got: seq<Unpacked>)
    requires AllPostable(posts) && AllBatchesPostable(later)
    ensures EmptyAfter(posts, later, n) && AllPostable(Queued(posts, later, n))
    ensures var all := Queued(posts, later, n);
            var cuts := Cuts(Queue(all), answers).0;
            && Queueable(Queue(all)) && AllPostable(PostsFor(all, fd))
            && (fd in failed <==> FailedOn(Queue(all), cuts, fd))
            && (Parse(Pieces(Queue(all), cuts, fd)).frames == DeliveredAll(PostsFor(all, fd)) <==> fd !in failed)
            && var r := Receive(Pieces(Queue(all), cuts, fd), shorts);
               Arrived(PostsFor(all, fd), got) <==> fd !in failed && r.dropped == [] && r.left == []
    ensures (forall i :: 0 <= i < |answers| ==> answers[i] >= 0) && shorts == [] ==>
              Arrived(PostsFor(Queued(posts, later, n), fd), got)
  {
    hide Postable, Parse, ForFd, Queue, Delivered, Sendable, Queued, EmptyAfter, Cuts, Pieces, FailedOn, Receive;
    hide NoFailure, Arrived, AreDecoded;
    var net := new Network(answers);
    var q := new SendQueue();
    PostAll(q, posts);
    QueuesQueueable(posts, later);
    failed, n := q.DrainNew(net, Queues(later));
    var all := Queued(posts, later, n);
    QueuedPosts(posts, later, n);
    EmptyAlike(posts, later, n);
    QueueForFd(all, fd);
    AllSendable(PostsFor(all, fd));
    var bytes := Sent(net.wire, fd);
    FramesAreWhole(bytes, shorts);
    var socket := new Socket(bytes, shorts);
    var r := ReceiveLoop(socket);
    FramesBelow(r.frames);
    got := UnpackAll(PostsFor(all, fd), r.frames);
    ArrivedIff(all, fd, Cuts(Queue(all), answers).0, shorts, got);
    if (forall i :: 0 <= i < |answers| ==> answers[i] >= 0) && shorts == [] {
      NothingGoesWrong(all, fd, answers);
    }
  }

  lemma FramesBelow(frames: seq<seq<Byte>>)
    requires forall f :: f in frames ==> Sendable(f) && |f| < MAX_FRAME
    ensures forall f :: f in frames ==> |f| < WORDS
  {
  }
}
