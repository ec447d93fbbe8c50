/** Resumable download with retries (crates/deltaship-client/src/downloader.rs), against a server that follows
    sections 14.2, 15.3.7 and 15.5.17 of RFC 9110. */
module Download {
  import opened Text
  import opened Bytes

  const MAX_RETRIES: nat := 3

  const PERMANENT_ERROR_CODES: seq<nat> := [400, 401, 403, 404, 405, 410]

  /** One item of the body stream as it is written: stored, stored in part before a write error, or a read error. */
  datatype Item = Chunk(bytes: seq<u8>) | Torn(bytes: seq<u8>, kept: nat) | Broken

  /** `Partial` names the byte range its Content-Range declares, the end excluded. */
  datatype Reply = NoReply | Status(code: nat) | Full | Partial(first: nat, end: nat) | Unsatisfiable

  /** Everything one attempt meets outside the program. `head` is the length a HEAD reply announced; `quoted` is the
      status code found in the text of an error that is not a status error; `lost` is how many streamed bytes had
      not reached the disk when the stream failed. */
  datatype Exchange = Exchange(statFails: bool, head: Option<nat>, hashFails: bool, removeFails: bool,
                               restatFails: bool, reply: Reply, openFails: bool, items: seq<Item>, flushFails: bool,
                               lost: nat, quoted: Option<nat>)

  datatype Outcome = Done(count: nat) | Failed(code: Option<nat>)

  type File = Option<seq<u8>>

  /* One attempt */

  function Size(file: File): nat {
    if file.Some? then |file.value| else 0
  }

  function Received(items: seq<Item>): seq<u8>
    decreases |items|
  {
    if items == [] || items[0].Broken? then []
    else if items[0].Torn? then items[0].bytes[..Min(items[0].kept, |items[0].bytes|)]
    else items[0].bytes + Received(items[1..])
  }

  lemma ReceivedFrom(items: seq<Item>, i: nat)
    requires i < |items|
    ensures Received(items[i..])
            == match items[i]
               case Chunk(bytes) => bytes + Received(items[i + 1..])
               case Torn(bytes, kept) => bytes[..Min(kept, |bytes|)]
               case Broken => []
  {
    assert items[i..][1..] == items[i + 1..];
  }

  predicate Complete(items: seq<Item>) {
    forall i | 0 <= i < |items| :: items[i].Chunk?
  }

  function Min(a: nat, b: nat): nat {
    if a < b then a else b
  }

  function Landed(ex: Exchange): seq<u8> {
    var got := Received(ex.items);
    if Complete(ex.items) && !ex.flushFails then got else got[..|got| - Min(ex.lost, |got|)]
  }

  predicate Distrusted(file: File, ex: Exchange) {
    Size(file) > 0 && (ex.hashFails || (ex.head.Some? && Size(file) > ex.head.value))
  }

  /** The file an attempt starts from. */
  function Kept(file: File, ex: Exchange): File {
    if Distrusted(file, ex) then None else file
  }

  function Attempted(file: File, ex: Exchange): (File, Outcome) {
    var f, n := Kept(file, ex), Size(Kept(file, ex));
    if (file.Some? && ex.statFails) || (Distrusted(file, ex) && ex.removeFails) then (file, Failed(ex.quoted))
    else if f.Some? && ex.restatFails then (f, Failed(ex.quoted))
    else match ex.reply
      case NoReply => (f, Failed(ex.quoted))
      case Status(code) => (f, Failed(Some(code)))
      case Unsatisfiable => (f, Done(n))
      case _ =>
        var base := if ex.reply.Partial? && n > 0 then f.value else [];
        if ex.openFails then (f, Failed(ex.quoted))
        else if !Complete(ex.items) || ex.flushFails then (Some(base + Landed(ex)), Failed(ex.quoted))
        else (Some(base + Landed(ex)), Done((if ex.reply.Partial? then n else 0) + |Landed(ex)|))
  }

  class Downloader {
    var file: File

    constructor (file: File)
      ensures this.file == file
    {
      this.file := file;
    }

    /** Whether to resume from the partial file. */
    method VerifyPartial(ex: Exchange) returns (ok: bool)
      requires Size(file) > 0
      ensures ok <==> !Distrusted(file, ex)
    {
      if ex.head.Some? && Size(file) > ex.head.value {
        return false;
      }
      return !ex.hashFails;
    }

    method StreamToFile(ex: Exchange, start: nat) returns (r: Outcome)
      requires file.Some?
      modifies this
      ensures file == Some(old(file.value) + Landed(ex))
      ensures r == if Complete(ex.items) && !ex.flushFails then Done(start + |Landed(ex)|) else Failed(ex.quoted)
    {
      var base := file.value;
      var written: seq<u8>, downloaded: nat, failed := [], start, false;
      assert base + written == base;
      var i := 0;
      while i < |ex.items| && !failed
        invariant 0 <= i <= |ex.items|
        invariant !failed ==> Complete(ex.items[..i]) && Received(ex.items) == written + Received(ex.items[i..])
        invariant failed ==> !Complete(ex.items) && Received(ex.items) == written
        invariant !failed ==> downloaded == start + |written|
        invariant file == Some(base + written)
      {
        var item := ex.items[i];
        ReceivedFrom(ex.items, i);
        match item {
          case Chunk(bytes) =>
            assert written + (bytes + Received(ex.items[i + 1..])) == (written + bytes) + Received(ex.items[i + 1..]);
            written := written + bytes;
            downloaded := downloaded + |bytes|;
          case Torn(bytes, kept) =>
            written := written + bytes[..Min(kept, |bytes|)];
            failed := true;
          case Broken =>
            assert written + [] == written;
            failed := true;
        }
        file := Some(base + written);
        i := i + 1;
      }
      if !failed {
        assert ex.items[..i] == ex.items && ex.items[i..] == [];
        assert written == Received(ex.items);
      }
      if failed || ex.flushFails {
        file := Some(base + written[..|written| - Min(ex.lost, |written|)]);
        return Failed(ex.quoted);
      }
      return Done(downloaded);
    }

    method Attempt(ex: Exchange) returns (r: Outcome)
      modifies this
      ensures (file, r) == Attempted(old(file), ex)
    {
      if file.Some? && ex.statFails {
        return Failed(ex.quoted);
      }
      if Size(file) > 0 {
        var trusted := VerifyPartial(ex);
        if !trusted {
          if ex.removeFails {
            return Failed(ex.quoted);
          }
          file := None;
        }
      }
      if file.Some? && ex.restatFails {
        return Failed(ex.quoted);
      }
      var existing := Size(file);
      match ex.reply {
        case NoReply =>
          return Failed(ex.quoted);
        case Unsatisfiable =>
          return Done(existing);
        case Status(code) =>
          return Failed(Some(code));
        case _ =>
      }
      if ex.openFails {
        return Failed(ex.quoted);
      }
      if !(ex.reply.Partial? && existing > 0) {
        file := Some([]);
      }
      r := StreamToFile(ex, if ex.reply.Partial? then existing else 0);
    }

    method DownloadFile(exchanges: seq<Exchange>, cleanupFails: bool) returns (r: Outcome)
      requires |exchanges| == 3
      modifies this
      ensures (file, r) == CleanedUp(Retried(old(file), exchanges), cleanupFails)
      ensures r.Done? <==> exists i: nat :: SucceedsAt(old(file), exchanges, i)
    {
      DownloadSucceedsIff(file, exchanges, cleanupFails);
      r := Failed(None);
      var attempt := 0;
      while attempt < MAX_RETRIES
        invariant 0 <= attempt <= MAX_RETRIES && r.Failed?
        invariant Retried(old(file), exchanges)
                  == if attempt == MAX_RETRIES then (file, r) else Retried(file, exchanges[attempt..])
      {
        ghost var rest := exchanges[attempt..];
        assert rest[0] == exchanges[attempt] && rest[1..] == exchanges[attempt + 1..];
        r := Attempt(exchanges[attempt]);
        if r.Done? {
          return;
        }
        if r.code.Some? && r.code.value in PERMANENT_ERROR_CODES {
          break;
        }
        attempt := attempt + 1;
      }
      if file.Some? && !cleanupFails {
        file := None;
      }
    }
  }

  /* All attempts */

  predicate Permanent(r: Outcome) {
    r.Failed? && r.code.Some? && r.code.value in PERMANENT_ERROR_CODES
  }

  function Retried(file: File, exchanges: seq<Exchange>): (File, Outcome)
    requires exchanges != []
    decreases |exchanges|
  {
    var (f, r) := Attempted(file, exchanges[0]);
    if r.Done? || Permanent(r) || |exchanges| == 1 then (f, r) else Retried(f, exchanges[1..])
  }

  function CleanedUp(last: (File, Outcome), cleanupFails: bool): (File, Outcome) {
    if last.1.Failed? && !cleanupFails then (None, last.1) else last
  }

  /** The file after the first `i` attempts, if all of them are made. */
  function FileBefore(file: File, exchanges: seq<Exchange>, i: nat): File
    requires i <= |exchanges|
    decreases i
  {
    if i == 0 then file else Attempted(FileBefore(file, exchanges, i - 1), exchanges[i - 1]).0
  }

  /** The outcome of attempt `i`. */
  function OutcomeOf(file: File, exchanges: seq<Exchange>, i: nat): Outcome
    requires i < |exchanges|
  {
    Attempted(FileBefore(file, exchanges, i), exchanges[i]).1
  }

  /** A failure that carries one of the codes after which nothing is tried again. */
  predicate GivesUp(r: Outcome) {
    r.Failed? && (|| r.code == Some(400) || r.code == Some(401) || r.code == Some(403)
                  || r.code == Some(404) || r.code == Some(405) || r.code == Some(410))
  }

  /** Attempt `i` is made and is the last: the ones before it failed in another way, and it succeeds, gives up, or is
      the last one there is. */
  ghost predicate EndsAt(file: File, exchanges: seq<Exchange>, i: nat) {
    && i < |exchanges|
    && (forall j: nat | j < i ::
          OutcomeOf(file, exchanges, j).Failed? && !GivesUp(OutcomeOf(file, exchanges, j)))
    && (OutcomeOf(file, exchanges, i).Done? || GivesUp(OutcomeOf(file, exchanges, i)) || i == |exchanges| - 1)
  }

  lemma {:induction false} ShiftBefore(file: File, exchanges: seq<Exchange>, i: nat)
    requires exchanges != [] && i < |exchanges|
    ensures FileBefore(file, exchanges, i + 1) == FileBefore(Attempted(file, exchanges[0]).0, exchanges[1..], i)
    decreases i
  {
    if i == 0 {
      assert FileBefore(file, exchanges, 0) == file;
    } else {
      ShiftBefore(file, exchanges, i - 1);
      assert exchanges[1..][i - 1] == exchanges[i];
    }
  }

  lemma ShiftOutcome(file: File, exchanges: seq<Exchange>, i: nat)
    requires i + 1 < |exchanges|
    ensures OutcomeOf(file, exchanges, i + 1) == OutcomeOf(Attempted(file, exchanges[0]).0, exchanges[1..], i)
  {
    ShiftBefore(file, exchanges, i);
  }

  /** The result is that of the attempt at which the retrying ends. */
  lemma {:induction false} RetriedIs(file: File, exchanges: seq<Exchange>) returns (i: nat)
    requires exchanges != []
    ensures EndsAt(file, exchanges, i)
    ensures Retried(file, exchanges) == Attempted(FileBefore(file, exchanges, i), exchanges[i])
    decreases |exchanges|
  {
    var first := Attempted(file, exchanges[0]);
    CodesAre(first.1);
    if first.1.Done? || Permanent(first.1) || |exchanges| == 1 {
      i := 0;
      EndsFirst(file, exchanges);
    } else {
      var k := RetriedIs(first.0, exchanges[1..]);
      i := k + 1;
      EndsLater(file, exchanges, k);
      LaterAttempt(file, exchanges, k);
    }
  }

  lemma EndsFirst(file: File, exchanges: seq<Exchange>)
    requires exchanges != []
    requires var r := Attempted(file, exchanges[0]).1; r.Done? || GivesUp(r) || |exchanges| == 1
    ensures EndsAt(file, exchanges, 0) && FileBefore(file, exchanges, 0) == file
  {
    assert OutcomeOf(file, exchanges, 0) == Attempted(file, exchanges[0]).1;
  }

  lemma LaterAttempt(file: File, exchanges: seq<Exchange>, k: nat)
    requires k + 1 < |exchanges|
    ensures var rest, f := exchanges[1..], Attempted(file, exchanges[0]).0;
            Attempted(FileBefore(f, rest, k), rest[k])
            == Attempted(FileBefore(file, exchanges, k + 1), exchanges[k + 1])
  {
    ShiftBefore(file, exchanges, k);
  }

  lemma CodesAre(r: Outcome)
    ensures Permanent(r) <==> GivesUp(r)
  {
  }

  lemma EndsLater(file: File, exchanges: seq<Exchange>, k: nat)
    requires |exchanges| > 1 && EndsAt(Attempted(file, exchanges[0]).0, exchanges[1..], k)
    requires var r := Attempted(file, exchanges[0]).1; r.Failed? && !GivesUp(r)
    ensures EndsAt(file, exchanges, k + 1)
  {
    assert OutcomeOf(file, exchanges, 0) == Attempted(file, exchanges[0]).1;
    forall j: nat | j < k + 1
      ensures OutcomeOf(file, exchanges, j).Failed? && !GivesUp(OutcomeOf(file, exchanges, j))
    {
      if j > 0 {
        ShiftOutcome(file, exchanges, j - 1);
      }
    }
    ShiftOutcome(file, exchanges, k);
  }

  /** The attempt succeeds from the file its predecessors left, and none of those succeeded or gave up. */
  ghost predicate SucceedsAt(file: File, exchanges: seq<Exchange>, i: nat) {
    && i < |exchanges| && OutcomeOf(file, exchanges, i).Done?
    && forall j: nat | j < i :: OutcomeOf(file, exchanges, j).Failed? && !GivesUp(OutcomeOf(file, exchanges, j))
  }

  /** With three exchanges, a download succeeds if and only if one of its attempts does and none before it gave up; file
      and count are then those of that attempt. */
  lemma DownloadSucceedsIff(file: File, exchanges: seq<Exchange>, cleanupFails: bool)
    requires |exchanges| == 3
    ensures var (f, r) := CleanedUp(Retried(file, exchanges), cleanupFails);
            && (r.Done? <==> exists i: nat :: SucceedsAt(file, exchanges, i))
            && forall i: nat | SucceedsAt(file, exchanges, i) ::
                 (f, r) == Attempted(FileBefore(file, exchanges, i), exchanges[i])
  {
    var k := RetriedIs(file, exchanges);
    if OutcomeOf(file, exchanges, k).Done? {
      assert SucceedsAt(file, exchanges, k);
    }
    forall i: nat | SucceedsAt(file, exchanges, i) ensures i == k {
      OneEnd(file, exchanges, i, k);
    }
  }

  lemma OneEnd(file: File, exchanges: seq<Exchange>, i: nat, k: nat)
    requires EndsAt(file, exchanges, k) && SucceedsAt(file, exchanges, i)
    ensures i == k
  {
  }

  /* One attempt, case by case */

  /** A partial file that is longer than the length HEAD announced, or that cannot be hashed, is thrown away, and the
      request asks for everything; any other is kept and resumed. */
  lemma DistrustIs(file: File, ex: Exchange)
    ensures Kept(file, ex)
            == if && file.Some? && |file.value| > 0
                  && (ex.hashFails || (ex.head.Some? && |file.value| > ex.head.value))
               then None else file
  {
  }

  /** When an attempt succeeds: the file can be looked at and, if thrown away, removed; and the server says that nothing
      is left to send, or all it sends is received and written. */
  lemma AttemptSucceedsIff(file: File, ex: Exchange)
    ensures var calm := && !(file.Some? && ex.statFails) && !(Kept(file, ex) != file && ex.removeFails)
                        && !(Kept(file, ex).Some? && ex.restatFails);
            Attempted(file, ex).1.Done?
            <==> && calm
                 && (|| ex.reply.Unsatisfiable?
                     || (&& (ex.reply.Full? || ex.reply.Partial?) && !ex.openFails && !ex.flushFails
                         && forall i | 0 <= i < |ex.items| :: ex.items[i].Chunk?))
  {
  }

  /** A refusal by status reports its code; every other failure reports what its text happens to quote. */
  lemma FailureCodeIs(file: File, ex: Exchange)
    requires Attempted(file, ex).1.Failed?
    ensures Attempted(file, ex).1.code
            == if && ex.reply.Status? && !(file.Some? && ex.statFails) && !(Kept(file, ex) != file && ex.removeFails)
                  && !(Kept(file, ex).Some? && ex.restatFails)
               then Some(ex.reply.code) else ex.quoted
  {
  }

  /* What the server may do */

  ghost predicate IsPrefix(a: seq<u8>, b: seq<u8>) {
    |a| <= |b| && a == b[..|a|]
  }

  function Body(content: seq<u8>, reply: Reply): seq<u8> {
    if reply.Partial? && reply.first <= reply.end <= |content| then content[reply.first..reply.end] else content
  }

  /** A reply to a GET for `content` from byte `n` on, with a Range header if `n` is positive: all of it, some part of
      the requested range, or 416 when nothing of it exists. A stream that ends without error is all of the body. */
  ghost predicate Served(content: seq<u8>, n: nat, ex: Exchange) {
    && (ex.reply.Partial? ==> 0 < n < |content| && n <= ex.reply.first <= ex.reply.end <= |content|)
    && (ex.reply.Unsatisfiable? ==> 0 < n && |content| <= n)
    && (ex.reply.Full? || ex.reply.Partial? ==>
          && IsPrefix(Received(ex.items), Body(content, ex.reply))
          && (Complete(ex.items) ==> Received(ex.items) == Body(content, ex.reply)))
  }

  /** A partial reply carries the whole range asked for. */
  predicate WholeRange(content: seq<u8>, n: nat, reply: Reply) {
    reply.Partial? ==> reply.first == n && reply.end == |content|
  }

  ghost predicate PrefixFile(file: File, content: seq<u8>) {
    file.Some? ==> IsPrefix(file.value, content)
  }

  lemma LandedIsPrefix(ex: Exchange, body: seq<u8>)
    requires IsPrefix(Received(ex.items), body)
    ensures IsPrefix(Landed(ex), body)
  {
  }

  lemma ResumedIsPrefix(f: seq<u8>, part: seq<u8>, content: seq<u8>)
    requires IsPrefix(f, content) && IsPrefix(part, content[|f|..])
    ensures IsPrefix(f + part, content)
  {
    assert content == f + content[|f|..];
  }

  /** A reply that starts where the file ends, whole or not, keeps the file a prefix of the content. */
  lemma AttemptKeepsPrefix(content: seq<u8>, file: File, ex: Exchange)
    requires PrefixFile(file, content) && Served(content, Size(Kept(file, ex)), ex)
    requires ex.reply.Partial? ==> ex.reply.first == Size(Kept(file, ex))
    ensures PrefixFile(Attempted(file, ex).0, content)
  {
    if ex.reply.Full? || ex.reply.Partial? {
      LandedIsPrefix(ex, Body(content, ex.reply));
      if ex.reply.Partial? {
        var n := ex.reply.first;
        assert content[n..ex.reply.end] == content[n..][..ex.reply.end - n];
        ResumedIsPrefix(Kept(file, ex).value, Landed(ex), content);
      }
    }
  }

  lemma JoinsExactly(f: seq<u8>, content: seq<u8>, first: nat, end: nat)
    requires IsPrefix(f, content) && |f| <= first <= end <= |content|
    ensures f + content[first..end] == content <==> first == |f| && end == |content|
  {
    assert content == f + content[|f|..];
    assert |f + content[first..end]| == |f| + end - first;
  }

  /** From a prefix, success means the whole content exactly when a partial reply was the whole range asked for:
      its Content-Range is not looked at. */
  lemma DoneIsComplete(content: seq<u8>, file: File, ex: Exchange)
    requires PrefixFile(file, content) && Served(content, Size(Kept(file, ex)), ex)
    requires Attempted(file, ex).1.Done?
    ensures Attempted(file, ex).0 == Some(content) <==> WholeRange(content, Size(Kept(file, ex)), ex.reply)
    ensures Attempted(file, ex).0.Some? && Attempted(file, ex).1.count == |Attempted(file, ex).0.value|
  {
    assert [] + Landed(ex) == Landed(ex) && content[..|content|] == content;
    if ex.reply.Partial? {
      JoinsExactly(Kept(file, ex).value, content, ex.reply.first, ex.reply.end);
    }
  }

  lemma RestoresExactly(f: seq<u8>, content: seq<u8>)
    requires |f| <= |content|
    ensures f + content[|f|..] == content <==> IsPrefix(f, content)
  {
    var joined := f + content[|f|..];
    assert joined[..|f|] == f;
    assert content == content[..|f|] + content[|f|..];
  }

  /** From any file at all, success means the whole content exactly when the reply was a full one or the file it was
      appended to, or left as it was, is a prefix: resuming trusts the size alone. */
  lemma ResumeTrustsSize(content: seq<u8>, file: File, ex: Exchange)
    requires Served(content, Size(Kept(file, ex)), ex) && WholeRange(content, Size(Kept(file, ex)), ex.reply)
    requires Attempted(file, ex).1.Done?
    ensures Attempted(file, ex).0 == Some(content) <==> ex.reply.Full? || PrefixFile(Kept(file, ex), content)
  {
    assert [] + Landed(ex) == Landed(ex) && content[..|content|] == content;
    if ex.reply.Partial? {
      assert content[ex.reply.first..ex.reply.end] == content[ex.reply.first..];
      RestoresExactly(Kept(file, ex).value, content);
    }
  }

  /** Every attempt that is made gets a reply the server may give, its partial replies whole. */
  ghost predicate AllServed(content: seq<u8>, file: File, exchanges: seq<Exchange>)
    decreases |exchanges|
  {
    exchanges != [] ==>
      && Served(content, Size(Kept(file, exchanges[0])), exchanges[0])
      && WholeRange(content, Size(Kept(file, exchanges[0])), exchanges[0].reply)
      && AllServed(content, Attempted(file, exchanges[0]).0, exchanges[1..])
  }

  lemma {:induction false} RetriesKeepPrefix(content: seq<u8>, file: File, exchanges: seq<Exchange>)
    requires exchanges != [] && PrefixFile(file, content) && AllServed(content, file, exchanges)
    ensures PrefixFile(Retried(file, exchanges).0, content)
    ensures Retried(file, exchanges).1.Done? ==> Retried(file, exchanges) == (Some(content), Done(|content|))
    decreases |exchanges|
  {
    AttemptKeepsPrefix(content, file, exchanges[0]);
    var (f, r) := Attempted(file, exchanges[0]);
    if r.Done? {
      DoneIsComplete(content, file, exchanges[0]);
    } else if !Permanent(r) && |exchanges| > 1 {
      RetriesKeepPrefix(content, f, exchanges[1..]);
    }
  }

  /** Across all attempts, failures, chunkings and HEAD answers: success leaves exactly the content, failure leaves
      nothing, or a prefix when the cleanup fails too. */
  lemma DownloadIsExact(content: seq<u8>, file: File, exchanges: seq<Exchange>, cleanupFails: bool)
    requires exchanges != [] && PrefixFile(file, content) && AllServed(content, file, exchanges)
    ensures var (f, r) := CleanedUp(Retried(file, exchanges), cleanupFails);
            && (r.Done? ==> f == Some(content) && r.count == |content|)
            && (r.Failed? ==> if cleanupFails then PrefixFile(f, content) else f == None)
  {
    RetriesKeepPrefix(content, file, exchanges);
  }

  /* Exactly when a successful download is right, from any file and over all attempts */

  /** The bytes a partial reply added to the file are those that follow it in the content. */
  predicate InOrder(content: seq<u8>, n: nat, ex: Exchange)
    requires ex.reply.Partial? && n <= ex.reply.first && ex.reply.first + |Landed(ex)| <= |content|
  {
    content[ex.reply.first..][..|Landed(ex)|] == content[n..][..|Landed(ex)|]
  }

  lemma LandedFits(content: seq<u8>, n: nat, ex: Exchange)
    requires Served(content, n, ex) && ex.reply.Partial?
    ensures ex.reply.first + |Landed(ex)| <= |content|
    ensures Landed(ex) == content[ex.reply.first..][..|Landed(ex)|]
  {
    LandedIsPrefix(ex, Body(content, ex.reply));
  }

  /** Whether the file is still a prefix after an attempt, told from the replies alone: removal and a full reply restore
      it, a partial reply must be in order. */
  predicate IntactAfter(content: seq<u8>, file: File, ex: Exchange, intact: bool)
    requires ex.reply.Partial? ==> Size(Kept(file, ex)) <= ex.reply.first && ex.reply.first + |Landed(ex)| <= |content|
  {
    if (file.Some? && ex.statFails) || (Distrusted(file, ex) && ex.removeFails) then intact
    else if (Kept(file, ex).Some? && ex.restatFails) || ex.openFails then intact || Distrusted(file, ex)
    else if ex.reply.Full? then true
    else
      (intact || Distrusted(file, ex)) && (ex.reply.Partial? ==> InOrder(content, Size(Kept(file, ex)), ex))
  }

  lemma AppendedIsPrefix(f: seq<u8>, part: seq<u8>, content: seq<u8>)
    requires |f| + |part| <= |content|
    ensures IsPrefix(f + part, content) <==> IsPrefix(f, content) && part == content[|f|..][..|part|]
  {
    var whole := f + part;
    assert whole[..|f|] == f && whole[|f|..] == part;
    assert content[..|whole|] == content[..|f|] + content[|f|..][..|part|];
    if IsPrefix(whole, content) {
      assert content[..|whole|][..|f|] == content[..|f|];
    }
  }

  lemma IntactIsPrefix(content: seq<u8>, file: File, ex: Exchange)
    requires Served(content, Size(Kept(file, ex)), ex)
    ensures ex.reply.Partial? ==> ex.reply.first + |Landed(ex)| <= |content|
    ensures IntactAfter(content, file, ex, PrefixFile(file, content)) <==> PrefixFile(Attempted(file, ex).0, content)
  {
    assert [] + Landed(ex) == Landed(ex);
    if ex.reply.Full? {
      LandedIsPrefix(ex, content);
    } else if ex.reply.Partial? {
      LandedFits(content, Size(Kept(file, ex)), ex);
      AppendedIsPrefix(Kept(file, ex).value, Landed(ex), content);
    }
  }

  lemma AnyJoinsExactly(f: seq<u8>, content: seq<u8>, first: nat, end: nat)
    requires |f| <= first <= end <= |content|
    ensures f + content[first..end] == content <==> first == |f| && end == |content| && IsPrefix(f, content)
  {
    assert |f + content[first..end]| == |f| + end - first;
    if first == |f| && end == |content| {
      assert content[first..end] == content[|f|..];
      RestoresExactly(f, content);
    }
  }

  /** From any file, a successful attempt leaves the content if and only if its reply was a full one, or was all of the
      rest of the content and the file a prefix. */
  lemma DoneExactly(content: seq<u8>, file: File, ex: Exchange)
    requires Served(content, Size(Kept(file, ex)), ex) && Attempted(file, ex).1.Done?
    ensures Attempted(file, ex).0 == Some(content)
            <==> || ex.reply.Full?
                 || (WholeRange(content, Size(Kept(file, ex)), ex.reply) && PrefixFile(Kept(file, ex), content))
  {
    assert [] + Landed(ex) == Landed(ex) && content[..|content|] == content;
    if ex.reply.Partial? {
      AnyJoinsExactly(Kept(file, ex).value, content, ex.reply.first, ex.reply.end);
    }
  }

  /** Every attempt that is made gets a reply the server may give, whole range or not. */
  ghost predicate Replied(content: seq<u8>, file: File, exchanges: seq<Exchange>)
    decreases |exchanges|
  {
    exchanges != [] ==>
      && Served(content, Size(Kept(file, exchanges[0])), exchanges[0])
      && Replied(content, Attempted(file, exchanges[0]).0, exchanges[1..])
  }

  /** The reply that ended the download was full, or was all of the rest and met a file that was still intact. */
  ghost predicate EndsRight(content: seq<u8>, file: File, exchanges: seq<Exchange>, intact: bool)
    requires Replied(content, file, exchanges)
    decreases |exchanges|
  {
    exchanges != [] &&
    var ex := exchanges[0];
    if Attempted(file, ex).1.Done? then
      || ex.reply.Full?
      || (WholeRange(content, Size(Kept(file, ex)), ex.reply) && (intact || Distrusted(file, ex)))
    else
      IntactIsPrefix(content, file, ex);
      EndsRight(content, Attempted(file, ex).0, exchanges[1..], IntactAfter(content, file, ex, intact))
  }

  /** Over all attempts and from any file, success leaves exactly the content if and only if the last reply was full, or
      was all of the rest and every partial reply since the last full one or removal was in order. */
  lemma {:induction false} DownloadRightIff(content: seq<u8>, file: File, exchanges: seq<Exchange>)
    requires exchanges != [] && Replied(content, file, exchanges) && Retried(file, exchanges).1.Done?
    ensures Retried(file, exchanges).0 == Some(content)
            <==> EndsRight(content, file, exchanges, PrefixFile(file, content))
    decreases |exchanges|
  {
    var ex := exchanges[0];
    if Attempted(file, ex).1.Done? {
      DoneExactly(content, file, ex);
    } else {
      IntactIsPrefix(content, file, ex);
      DownloadRightIff(content, Attempted(file, ex).0, exchanges[1..]);
    }
  }

  /** Two failures that are not final, and then a full reply received without trouble, end in the content. */
  lemma ThirdTimeLucky(content: seq<u8>, file: File, exchanges: seq<Exchange>, cleanupFails: bool)
    requires |exchanges| == 3
    requires forall j: nat | j < 2 ::
               OutcomeOf(file, exchanges, j).Failed? && !GivesUp(OutcomeOf(file, exchanges, j))
    requires var ex := exchanges[2];
             && ex.reply.Full? && Complete(ex.items)
             && Served(content, Size(Kept(FileBefore(file, exchanges, 2), ex)), ex)
             && !ex.statFails && !ex.removeFails && !ex.restatFails && !ex.openFails && !ex.flushFails
    ensures CleanedUp(Retried(file, exchanges), cleanupFails) == (Some(content), Done(|content|))
  {
    var before, ex := FileBefore(file, exchanges, 2), exchanges[2];
    AttemptSucceedsIff(before, ex);
    assert SucceedsAt(file, exchanges, 2);
    DownloadSucceedsIff(file, exchanges, cleanupFails);
    assert [] + Landed(ex) == content;
  }

  /* Downloads that end well and are wrong */

  function Calm(reply: Reply, items: seq<Item>): Exchange {
    Exchange(false, None, false, false, false, reply, false, items, false, 0, None)
  }

  lemma OneChunk(bytes: seq<u8>)
    ensures Received([Chunk(bytes)]) == bytes && Complete([Chunk(bytes)])
  {
    assert [Chunk(bytes)][1..] == [];
    assert bytes + [] == bytes;
  }

  /** A server that sends less than the range asked for, as it may, makes the download short: bytes 1 to 1 of three. */
  lemma ShortRangeIsDone()
    ensures var content, ex := [1, 2, 3], Calm(Partial(1, 2), [Chunk([2])]);
            && PrefixFile(Some([1]), content) && Served(content, 1, ex)
            && Attempted(Some([1]), ex) == (Some([1, 2]), Done(2))
  {
    OneChunk([2]);
    assert [1, 2, 3][1..2] == [2] && [1, 2, 3][..1] == [1];
    assert [1] + [2] == [1, 2];
  }

  /** A partial file of other origin is completed, not replaced. */
  lemma ForeignPrefixIsKept()
    ensures var content, ex := [1, 2], Calm(Partial(1, 2), [Chunk([2])]);
            && Served(content, 1, ex) && WholeRange(content, 1, ex.reply)
            && Attempted(Some([9]), ex) == (Some([9, 2]), Done(2))
  {
    OneChunk([2]);
    assert [1, 2][1..2] == [2];
    assert [9] + [2] == [9, 2];
  }
}
