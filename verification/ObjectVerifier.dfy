/** The streaming length and digest check beneath every object read. The source may
    reply with any count and any error at all. */
module ObjectVerifiers {
  import opened Wrappers
  import opened Bytes

  datatype ObjectErrorCode = Canceled | Size | Digest | Source | Incomplete | CloseFailed

  /** What a reader sees: bytes went by, the verified end, or a failure. A wrapped
      end-of-file is only another source failure. */
  datatype StreamResult = Progress | Eof | Failed(code: ObjectErrorCode)

  datatype SourceError = NoError | BareEof | OtherError

  /** One reply: the count the source claims, what it left in the buffer it was
      handed, and its error. */
  datatype Reply = Reply(count: int, buffer: seq<byte>, err: SourceError)

  /** The reader's context, before and after one source read. */
  datatype Cancellation = Cancellation(before: bool, after: bool)

  /** What one source read comes to, once its bytes are counted: cancellation first,
      then a read failure, then the end, then no progress. */
  function Classified(expected: nat, digest: Digest32, sha: seq<byte> -> Digest32, bytes: seq<byte>,
                      n: nat, err: SourceError, cancelled: bool): StreamResult {
    if cancelled then Failed(Canceled)
    else if err.OtherError? then Failed(Source)
    else if err.BareEof? then
      if |bytes| != expected then Failed(Size) else if sha(bytes) != digest then Failed(Digest) else Eof
    else if n == 0 then Failed(Source)
    else Progress
  }

  /** What a stream was promised to hold. */
  datatype Promise = Promise(expected: nat, digest: Digest32, sha: seq<byte> -> Digest32) {
    predicate Met(bytes: seq<byte>) { |bytes| == expected && sha(bytes) == digest }
  }

  /** The verifier as a value: the bytes counted so far, and its latched outcome, which
      is Progress while it streams. */
  datatype Verifier = Verifier(promise: Promise, hashed: seq<byte>, outcome: StreamResult) {
    predicate Kept() { |hashed| <= promise.expected && (outcome == Eof ==> promise.Met(hashed)) }
  }

  datatype Taken = Taken(next: Verifier, out: seq<byte>)

  /** One read through it: what passes to the caller, and what it comes to. */
  function ReadOnce(v: Verifier, size: nat, reply: Reply, ctx: Cancellation): Taken
    requires |reply.buffer| >= size
  {
    if v.outcome != Progress then Taken(v, [])
    else if ctx.before then Taken(v.(outcome := Failed(Canceled)), [])
    else if size == 0 then Taken(v, [])
    else
      var remaining := v.promise.expected - |v.hashed|;
      var limit := if remaining < size then remaining else size;
      if remaining == 0 && reply.count > 0 then Taken(v.(outcome := Failed(Size)), [])
      else if reply.count < 0 || reply.count > limit then Taken(v.(outcome := Failed(Source)), [])
      else
        var out := reply.buffer[..reply.count];
        var all := v.hashed + out;
        Taken(Verifier(v.promise, all,
                       Classified(v.promise.expected, v.promise.digest, v.promise.sha, all, reply.count, reply.err, ctx.after)), out)
  }

  /** A read passes on exactly the bytes it counts, never more than were promised;
      the end is reported only for the promised length and digest; and an outcome,
      once reached, is every later read's. */
  lemma ReadOnceMeaning(v: Verifier, size: nat, reply: Reply, ctx: Cancellation)
    requires v.Kept() && |reply.buffer| >= size
    ensures var t := ReadOnce(v, size, reply, ctx);
            && t.next.Kept() && t.next.promise == v.promise && t.next.hashed == v.hashed + t.out && |t.out| <= size
            && (v.outcome != Progress ==> t == Taken(v, []))
            && (t.next.outcome == Progress && size > 0 ==> t.out != [])
  {
  }

  /** The bytes a reply brings, if its count is one it may bring: no more than the buffer
      holds, and no more than the promise has left. */
  predicate InRange(v: Verifier, size: nat, reply: Reply) {
    0 <= reply.count <= size && |v.hashed| + reply.count <= v.promise.expected
  }

  /** The one way a read goes wrong, or ends, or goes on, each by its own condition. */
  predicate EndsIn(v: Verifier, size: nat, reply: Reply, ctx: Cancellation, r: StreamResult)
    requires |reply.buffer| >= size
  {
    if ctx.before then r == Failed(Canceled)
    else if !InRange(v, size, reply) then r == Failed(if |v.hashed| == v.promise.expected && reply.count > 0 then Size else Source)
    else if ctx.after then r == Failed(Canceled)
    else
      var all := v.hashed + reply.buffer[..reply.count];
      match r
      case Eof => reply.err.BareEof? && |all| == v.promise.expected && v.promise.sha(all) == v.promise.digest
      case Failed(Size) => reply.err.BareEof? && |all| < v.promise.expected
      case Failed(Digest) => reply.err.BareEof? && |all| == v.promise.expected && v.promise.sha(all) != v.promise.digest
      case Failed(Source) => reply.err.OtherError? || (reply.err.NoError? && reply.count == 0)
      case Progress => reply.err.NoError? && reply.count > 0
      case _ => false
  }

  /** A streaming read comes to exactly what its reply and its context make of it: the
      verified end if and only if the source ends bare, uncancelled, on exactly the
      promised bytes. */
  lemma ReadEndsExactlyWhen(v: Verifier, size: nat, reply: Reply, ctx: Cancellation, r: StreamResult)
    requires v.Kept() && v.outcome == Progress && size > 0 && |reply.buffer| >= size
    ensures var t := ReadOnce(v, size, reply, ctx);
            && (t.next.outcome == r <==> EndsIn(v, size, reply, ctx, r))
            && (t.next.outcome == Eof <==>
                  !ctx.before && !ctx.after && reply.err.BareEof? && InRange(v, size, reply) && v.promise.Met(v.hashed + t.out))
            && t.out == if !ctx.before && InRange(v, size, reply) then reply.buffer[..reply.count] else []
  {
  }

  // ---- a source that keeps its word ------------------------------------------------------

  /** What a run of replies brings. */
  function Brought(replies: seq<Reply>): seq<byte>
    requires forall i :: 0 <= i < |replies| ==> 0 <= replies[i].count <= |replies[i].buffer|
  {
    if replies == [] then []
    else
      var last := replies[|replies| - 1];
      Brought(replies[..|replies| - 1]) + last.buffer[..last.count]
  }

  predicate Countable(replies: seq<Reply>, size: nat) {
    forall i :: 0 <= i < |replies| ==> 0 <= replies[i].count <= size <= |replies[i].buffer|
  }

  /** Some bytes in every reply but the last, which ends the stream bare. */
  predicate Faithful(replies: seq<Reply>, size: nat) {
    && replies != [] && Countable(replies, size)
    && (forall i :: 0 <= i < |replies| - 1 ==> replies[i].err.NoError? && replies[i].count > 0)
    && replies[|replies| - 1].err.BareEof?
  }

  lemma {:induction false} BroughtGrows(replies: seq<Reply>, size: nat, n: nat)
    requires Countable(replies, size) && n <= |replies|
    ensures |Brought(replies[..n])| <= |Brought(replies)|
    decreases |replies|
  {
    if n == |replies| {
      assert replies[..n] == replies;
    } else {
      assert replies[..|replies| - 1][..n] == replies[..n];
      BroughtGrows(replies[..|replies| - 1], size, n);
    }
  }

  lemma OneMoreBrought(replies: seq<Reply>, size: nat, i: nat)
    requires Countable(replies, size) && i < |replies|
    ensures Brought(replies[..i + 1]) == Brought(replies[..i]) + replies[i].buffer[..replies[i].count]
    ensures |Brought(replies[..i + 1])| <= |Brought(replies)|
  {
    assert replies[..i + 1][..i] == replies[..i];
    BroughtGrows(replies, size, i + 1);
  }

  lemma ReadBrings(v: Verifier, size: nat, reply: Reply, all: seq<byte>)
    requires v.outcome == Progress && 0 <= reply.count <= size <= |reply.buffer| && size > 0
    requires all == v.hashed + reply.buffer[..reply.count] && |all| <= v.promise.expected
    requires if reply.err.BareEof? then v.promise.Met(all) else reply.err.NoError? && reply.count > 0
    ensures ReadOnce(v, size, reply, Cancellation(false, false)) ==
              Taken(Verifier(v.promise, all, if reply.err.BareEof? then Eof else Progress), reply.buffer[..reply.count])
  {
  }

  /** One reply of a faithful source, and what the verifier makes of it. */
  lemma FaithfulRead(v: Verifier, size: nat, replies: seq<Reply>, i: nat)
    requires Faithful(replies, size) && i < |replies| && size > 0 && v.promise.Met(Brought(replies))
    requires v.outcome == Progress && v.hashed == Brought(replies[..i])
    ensures var t := ReadOnce(v, size, replies[i], Cancellation(false, false));
            && t.next == Verifier(v.promise, Brought(replies[..i + 1]), if i + 1 == |replies| then Eof else Progress)
            && t.out == replies[i].buffer[..replies[i].count]
  {
    OneMoreBrought(replies, size, i);
    if i + 1 == |replies| { assert replies[..i + 1] == replies; }
    ReadBrings(v, size, replies[i], Brought(replies[..i + 1]));
  }

  class ExactVerifier {
    const expected: nat
    const digest: Digest32
    const sha: seq<byte> -> Digest32
    var hashed: seq<byte>
    var read: nat
    var verified: bool
    var failure: Option<ObjectErrorCode>
    ghost var delivered: seq<byte>

    /** Every byte handed on was counted and hashed, never more than was promised;
        verified means the whole promise was met. */
    ghost predicate Valid() reads this {
      && delivered == hashed && read == |hashed| <= expected
      && (verified ==> failure.None? && |hashed| == expected && sha(hashed) == digest)
    }

    constructor (expected: nat, digest: Digest32, sha: seq<byte> -> Digest32)
      ensures Valid() && delivered == [] && !verified && failure == None
      ensures this.expected == expected && this.digest == digest && this.sha == sha
    {
      this.expected, this.digest, this.sha := expected, digest, sha;
      hashed, read, verified, failure, delivered := [], 0, false, None, [];
    }

    function Outcome(): StreamResult
      reads this
    {
      if verified then Eof else if failure.Some? then Failed(failure.value) else Progress
    }

    /** The same, as a value. */
    function State(): Verifier
      reads this
    {
      Verifier(Promise(expected, digest, sha), hashed, Outcome())
    }

    method Fail(code: ObjectErrorCode) returns (r: StreamResult)
      requires Valid() && !verified
      modifies this`failure
      ensures Valid() && failure == Some(code) && r == Failed(code)
    {
      failure := Some(code);
      r := Failed(code);
    }

    method FinishRead(n: nat, err: SourceError, cancelled: bool) returns (r: StreamResult)
      requires Valid() && !verified && failure.None?
      modifies this`failure, this`verified
      ensures Valid()
      ensures r == Classified(expected, digest, sha, hashed, n, err, cancelled) == Outcome()
      ensures r == Eof <==> !cancelled && err.BareEof? && |hashed| == expected && sha(hashed) == digest
    {
      if cancelled {
        r := Fail(Canceled);
      } else if err.OtherError? {
        r := Fail(Source);
      } else if err.BareEof? {
        if read != expected {
          r := Fail(Size);
        } else if sha(hashed) != digest {
          r := Fail(Digest);
        } else {
          verified := true;
          r := Eof;
        }
      } else if n == 0 {
        r := Fail(Source);
      } else {
        r := Progress;
      }
    }

    /** One read through the verifier, into a buffer of `size` bytes. */
    method Read(size: nat, reply: Reply, ctx: Cancellation) returns (out: seq<byte>, r: StreamResult)
      requires Valid()
      requires |reply.buffer| >= size
      modifies this
      ensures Valid() && |out| <= size && delivered == old(delivered) + out
      ensures ReadOnce(old(State()), size, reply, ctx) == Taken(State(), out)
      ensures r == Outcome() && (r == Progress && size > 0 ==> out != [])
      ensures r == Eof <==> verified
      ensures old(State()).outcome == Progress && size > 0 ==> EndsIn(old(State()), size, reply, ctx, r)
      ensures r == Eof ==> |delivered| == expected && sha(delivered) == digest
      ensures r.Failed? ==> failure == Some(r.code)
      ensures old(verified) ==> r == Eof && out == []
      ensures old(failure).Some? ==> r == Failed(old(failure).value) && out == []
      ensures old(!verified && failure.None?) && ctx.before ==> r == Failed(Canceled) && out == []
      ensures old(!verified && failure.None?) && !ctx.before && size > 0 ==>
                var limit := if expected - old(read) < size then expected - old(read) else size;
                if old(read) == expected && reply.count > 0 then r == Failed(Size)
                else if reply.count < 0 || reply.count > limit then r == Failed(Source)
                else
                  && out == reply.buffer[..reply.count]
                  && r == Classified(expected, digest, sha, delivered, reply.count, reply.err, ctx.after)
      ensures |old(delivered)| + |out| <= expected
    {
      out := [];
      if State().outcome == Progress && size > 0 {
        ReadEndsExactlyWhen(State(), size, reply, ctx, ReadOnce(State(), size, reply, ctx).next.outcome);
      }
      if verified {
        return out, Eof;
      }
      if failure.Some? {
        return out, Failed(failure.value);
      }
      if ctx.before {
        r := Fail(Canceled);
        return;
      }
      if size == 0 {
        return out, Progress;
      }
      var remaining := expected - read;
      if remaining == 0 {
        if reply.count < 0 {
          r := Fail(Source);
          return;
        }
        if reply.count > 0 {
          r := Fail(Size);
          return;
        }
        r := FinishRead(0, reply.err, ctx.after);
        return;
      }
      var limit := if remaining < size then remaining else size;
      if reply.count < 0 || reply.count > limit {
        r := Fail(Source);
        return;
      }
      out := reply.buffer[..reply.count];
      read := read + reply.count;
      hashed := hashed + out;
      delivered := delivered + out;
      r := FinishRead(reply.count, reply.err, ctx.after);
    }
  }

  predicate Undisturbed(ctx: seq<Cancellation>) { forall i :: 0 <= i < |ctx| ==> ctx[i] == Cancellation(false, false) }

  /** Reading to the end, whatever the source does: the whole of what was delivered
      is the promised length and digest, or the stream ended in a failure; and a source
      that brings exactly what was promised, undisturbed, is read to the verified end. */
  method ReadAll(v: ExactVerifier, size: nat, replies: seq<Reply>, ctx: seq<Cancellation>) returns (all: seq<byte>, r: StreamResult)
    requires v.Valid() && v.delivered == [] && !v.verified && v.failure.None? && size > 0
    requires |ctx| == |replies| && forall i :: 0 <= i < |replies| ==> |replies[i].buffer| >= size
    modifies v
    ensures v.Valid() && all == v.delivered && |all| <= v.expected
    ensures r == Eof ==> |all| == v.expected && v.sha(all) == v.digest
    ensures r == Progress ==> |all| >= |replies|
    ensures Faithful(replies, size) && Undisturbed(ctx) && v.State().promise.Met(Brought(replies)) ==> r == Eof && all == Brought(replies)
  {
    all, r := [], Progress;
    ghost var kept := Faithful(replies, size) && Undisturbed(ctx) && v.State().promise.Met(Brought(replies));
    assert replies[..|replies|] == replies;
    for i := 0 to |replies|
      invariant v.Valid() && all == v.delivered && !v.verified && v.failure.None? && r == Progress
      invariant |all| >= i
      invariant kept ==> i < |replies| && all == Brought(replies[..i])
    {
      if kept {
        FaithfulRead(v.State(), size, replies, i);
        assert replies[..i + 1][..i] == replies[..i];
      }
      var out: seq<byte>;
      ghost var before := all;
      out, r := v.Read(size, replies[i], ctx[i]);
      all := all + out;
      if r != Progress {
        return;
      }
    }
  }
}
