/**
 The resumable verified download: a retry loop over a partial file, a finished file and a server
 that may answer anything. Range requests follow section 14 of RFC 9110.
 */
module Download {
  import opened Wrappers
  import opened Bytes

  type Content = seq<Byte>
  type Digest = string
  type Hash = Content -> Digest

  datatype Fault =
    | HttpError(code: int)
    | IntegrityError
    | RuntimeError
    | ConnectionError
    | UncaughtError

  /** A Content-Length header: absent, a number, or text that int() rejects. */
  datatype Length = NoLength | Declared(bytes: int) | Malformed

  /** A parsed Content-Range header; the total may be an asterisk. */
  datatype Range = Range(start: nat, end: nat, total: Option<nat>)

  /** How reading the body ends: end of stream, a connection failure, or an exception nobody catches. */
  datatype Ending = Complete | Broken | BrokenBadly

  datatype Reaction =
    | Refused(fault: Fault)
    | Response(status: int, length: Length, range: Option<Range>, chunks: seq<Content>, ending: Ending)

  /** The server's answer to request number n with Range offset; offset 0 sends no Range header. */
  type Server = (nat, nat) -> Reaction

  /** Frozen size and hash, each optional, and the hash function. */
  datatype Checks = Checks(size: Option<int>, sha: Option<Digest>, hash: Hash)

  /** The loop's variables. */
  datatype Local = Local(part: Option<Content>, existing: nat, declared: Option<int>)

  /** What one pass through the loop body does. */
  datatype Pass =
    | Finished(content: Content)
    | Restart(next: Local)
    | Failed(next: Local, fault: Fault)
    | Fatal(next: Local, fault: Fault)

  datatype Final = Final(
    part: Option<Content>, dest: Option<Content>, result: Result<(nat, Digest), Fault>, requests: nat)

  // ------------------------------------------------------------------
  // One request
  // ------------------------------------------------------------------

  function Concat(chunks: seq<Content>): Content {
    if chunks == [] then [] else Concat(chunks[..|chunks| - 1]) + chunks[|chunks| - 1]
  }

  function Stored(part: Option<Content>): Content {
    if part.Some? then part.value else []
  }

  /** A discarded partial file and forgotten lengths. */
  function Poisoned(c: Checks): Pass {
    Failed(Local(None, 0, c.size), IntegrityError)
  }

  /** The checks before the rename. */
  function Verify(l: Local, content: Content, c: Checks): Pass {
    if l.declared.Some? && |content| != l.declared.value then Poisoned(c)
    else if c.size.Some? && |content| != c.size.value then Poisoned(c)
    else if c.sha.Some? && c.hash(content) != c.sha.value then Poisoned(c)
    else Finished(content)
  }

  /** The body is appended to base, and what was read stays on disk if reading fails. */
  function Receive(base: Content, existing: nat, declared: Option<int>, r: Reaction, c: Checks): Pass
    requires r.Response?
  {
    var content := base + Concat(r.chunks);
    var l := Local(Some(content), existing + |Concat(r.chunks)|, declared);
    match r.ending
    case Broken => Failed(l, ConnectionError)
    case BrokenBadly => Fatal(l, UncaughtError)
    case Complete => Verify(l, content, c)
  }

  function Resume(l: Local, r: Reaction, c: Checks): Pass
    requires r.Response?
  {
    if r.status == 200 || r.status == 416 then Restart(Local(None, 0, l.declared))
    else if r.status != 206 || r.range.None? || r.range.value.start != l.existing then Poisoned(c)
    else
      var declared := if r.range.value.total.Some? then Some(r.range.value.total.value as int) else l.declared;
      if r.length.Malformed? then Fatal(l.(declared := declared), UncaughtError)
      else if r.length.Declared? && r.range.value.end + 1 - r.range.value.start != r.length.bytes then Poisoned(c)
      else Receive(Stored(l.part), l.existing, declared, r, c)
  }

  function Fresh(l: Local, r: Reaction, c: Checks): Pass
    requires r.Response?
  {
    if r.status != 200 then Failed(l, RuntimeError)
    else if r.length.Malformed? then Fatal(l, UncaughtError)
    else Receive([], 0, if r.length.Declared? then Some(r.length.bytes) else l.declared, r, c)
  }

  function Attempt(l: Local, r: Reaction, c: Checks): Pass {
    match r
    case Refused(fault) =>
      if fault == HttpError(416) then Failed(Local(None, 0, l.declared), fault)
      else if fault == HttpError(404) || fault.UncaughtError? then Fatal(l, fault)
      else if fault.IntegrityError? then Poisoned(c)
      else Failed(l, fault)
    case Response(_, _, _, _, _) => if l.existing > 0 then Resume(l, r, c) else Fresh(l, r, c)
  }

  // ------------------------------------------------------------------
  // The loop
  // ------------------------------------------------------------------

  function Start(part: Option<Content>, c: Checks): Local {
    Local(part, |Stored(part)|, c.size)
  }

  /** Every run from loop head l with n requests made so far. */
  function Run(l: Local, dest: Option<Content>, n: nat, retries: nat, server: Server, c: Checks): Final
    decreases retries - n
  {
    if n >= retries then Final(l.part, dest, Err(RuntimeError), n)
    else
      match Attempt(l, server(n + 1, l.existing), c)
      case Finished(content) => Final(None, Some(content), Ok((|content|, c.hash(content))), n + 1)
      case Restart(next) => Run(next, dest, n + 1, retries, server, c)
      case Failed(next, fault) =>
        if n + 1 >= retries then Final(next.part, dest, Err(fault), n + 1)
        else Run(next, dest, n + 1, retries, server, c)
      case Fatal(next, fault) => Final(next.part, dest, Err(fault), n + 1)
  }

  /** The directory the download works in: the partial file and the finished file. */
  class Workspace {
    var part: Option<Content>
    var dest: Option<Content>

    constructor (part: Option<Content>, dest: Option<Content>)
      ensures this.part == part && this.dest == dest
    {
      this.part, this.dest := part, dest;
    }

    /** The read loop: every chunk reaches the partial file before the next is read. */
    method ReadBody(r: Reaction, offset: nat) returns (existing: nat)
      requires r.Response?
      modifies this`part
      ensures part == Some(Stored(old(part)) + Concat(r.chunks))
      ensures existing == offset + |Concat(r.chunks)|
    {
      part := Some(Stored(part));
      existing := offset;
      assert Stored(part) + [] == Stored(part);
      for i := 0 to |r.chunks|
        invariant part == Some(Stored(old(part)) + Concat(r.chunks[..i]))
        invariant existing == offset + |Concat(r.chunks[..i])|
      {
        assert r.chunks[..i + 1][..i] == r.chunks[..i];
        ghost var base, received := Stored(old(part)), Concat(r.chunks[..i]);
        assert base + received + r.chunks[i] == base + (received + r.chunks[i]);
        part := Some(Stored(part) + r.chunks[i]);
        existing := existing + |r.chunks[i]|;
      }
      assert r.chunks[..|r.chunks|] == r.chunks;
    }

    /** The checks on a response's headers: what to append to, or why not. */
    method Admit(r: Reaction, existing: nat, declaredTotal: Option<int>, c: Checks)
      returns (refusal: Option<Pass>, declared: Option<int>)
      requires r.Response? && existing == |Stored(part)|
      ensures refusal.Some? ==>
                Attempt(Local(part, existing, declaredTotal), r, c) == refusal.value && !refusal.value.Finished?
      ensures refusal.None? ==>
                Attempt(Local(part, existing, declaredTotal), r, c)
                == Receive(if existing > 0 then Stored(part) else [], existing, declared, r, c)
    {
      declared := declaredTotal;
      if existing > 0 {
        if r.status == 200 || r.status == 416 {
          return Some(Restart(Local(None, 0, declared))), declared;
        }
        if r.status != 206 || r.range.None? || r.range.value.start != existing {
          return Some(Poisoned(c)), declared;
        }
        if r.range.value.total.Some? {
          declared := Some(r.range.value.total.value);
        }
        if r.length.Malformed? {
          return Some(Fatal(Local(part, existing, declared), UncaughtError)), declared;
        }
        if r.length.Declared? && r.range.value.end + 1 - r.range.value.start != r.length.bytes {
          return Some(Poisoned(c)), declared;
        }
      } else {
        if r.status != 200 {
          return Some(Failed(Local(part, existing, declared), RuntimeError)), declared;
        }
        if r.length.Malformed? {
          return Some(Fatal(Local(part, existing, declared), UncaughtError)), declared;
        }
        if r.length.Declared? {
          declared := Some(r.length.bytes);
        }
      }
      refusal := None;
    }

    /** One pass through the loop body, up to but not including the rename. */
    method Request(r: Reaction, existing: nat, declaredTotal: Option<int>, c: Checks) returns (pass: Pass)
      requires existing == |Stored(part)|
      modifies this`part
      ensures pass == Attempt(Local(old(part), existing, declaredTotal), r, c)
      ensures pass.Finished? ==> part == Some(pass.content)
      ensures !pass.Finished? ==> part == pass.next.part && pass.next.existing == |Stored(part)|
    {
      match r {
        case Refused(fault) =>
          if fault == HttpError(416) {
            part := None;
            pass := Failed(Local(part, 0, declaredTotal), fault);
          } else if fault == HttpError(404) || fault.UncaughtError? {
            pass := Fatal(Local(part, existing, declaredTotal), fault);
          } else if fault.IntegrityError? {
            part := None;
            pass := Poisoned(c);
          } else {
            pass := Failed(Local(part, existing, declaredTotal), fault);
          }
        case Response(_, _, _, _, _) =>
          var refusal, declared := Admit(r, existing, declaredTotal, c);
          if refusal.Some? {
            pass := refusal.value;
            part := pass.next.part;
            return;
          }
          if existing == 0 {
            part := None;
          }
          ghost var base := Stored(part);
          var received := ReadBody(r, existing);
          var content := part.value;
          var l := Local(part, received, declared);
          assert base + Concat(r.chunks) == content;
          match r.ending {
            case Broken => pass := Failed(l, ConnectionError);
            case BrokenBadly => pass := Fatal(l, UncaughtError);
            case Complete =>
              pass := Verify(l, content, c);
              if !pass.Finished? {
                part := None;
              }
          }
      }
    }

    /** download: at every loop head `existing` is the length of the partial file. */
    method Download(retries: nat, server: Server, c: Checks)
      returns (result: Result<(nat, Digest), Fault>, requests: nat)
      modifies this
      ensures Final(part, dest, result, requests) == Run(Start(old(part), c), old(dest), 0, retries, server, c)
    {
      var existing := |Stored(part)|;
      var declaredTotal := c.size;
      requests := 0;
      while requests < retries
        invariant 0 <= requests && existing == |Stored(part)|
        invariant Run(Start(old(part), c), old(dest), 0, retries, server, c)
                  == Run(Local(part, existing, declaredTotal), dest, requests, retries, server, c)
        decreases retries - requests
      {
        requests := requests + 1;
        var pass := Request(server(requests, existing), existing, declaredTotal, c);
        match pass {
          case Finished(content) =>
            part, dest := None, Some(content);
            return Ok((|content|, c.hash(content))), requests;
          case Restart(next) =>
            existing, declaredTotal := next.existing, next.declared;
          case Failed(next, fault) =>
            if requests >= retries {
              return Err(fault), requests;
            }
            existing, declaredTotal := next.existing, next.declared;
          case Fatal(next, fault) =>
            return Err(fault), requests;
        }
      }
      result := Err(RuntimeError);
    }
  }

  // ------------------------------------------------------------------
  // Safety over every run
  // ------------------------------------------------------------------

  /** The loop-head invariant: `existing` is the length of the partial file. */
  predicate Measured(l: Local) {
    l.existing == |Stored(l.part)|
  }

  lemma AttemptKeepsMeasure(l: Local, r: Reaction, c: Checks)
    requires Measured(l)
    ensures !Attempt(l, r, c).Finished? ==> Measured(Attempt(l, r, c).next)
  {
  }

  /** Every check that was given. */
  predicate Passes(content: Content, c: Checks) {
    && (c.size.Some? ==> |content| == c.size.value)
    && (c.sha.Some? ==> c.hash(content) == c.sha.value)
  }

  /**
   Over every run against every server: at most `retries` requests; the finished file changes only
   by a rename of content that passed every check; every exception leaves it untouched; and no
   partial file survives an integrity failure.
   */
  lemma {:induction false} RunIsSafe(l: Local, dest: Option<Content>, n: nat, retries: nat, server: Server, c: Checks)
    requires n <= retries
    ensures var f := Run(l, dest, n, retries, server, c);
            && f.requests <= retries
            && (f.result.Ok? ==> f.part == None && f.dest.Some? && Passes(f.dest.value, c)
                                 && f.result.value == (|f.dest.value|, c.hash(f.dest.value)))
            && (f.result.Err? ==> f.dest == dest)
            && (f.result == Err(IntegrityError) ==> f.part == None)
    decreases retries - n
  {
    if n < retries {
      match Attempt(l, server(n + 1, l.existing), c)
      case Finished(content) =>
      case Restart(next) => RunIsSafe(next, dest, n + 1, retries, server, c);
      case Failed(next, fault) => if n + 1 < retries { RunIsSafe(next, dest, n + 1, retries, server, c); }
      case Fatal(next, fault) =>
    }
  }

  // ------------------------------------------------------------------
  // A truthful server, with drops; and an honest one, which also declares lengths
  // ------------------------------------------------------------------

  /** An answer for payload p: any refusal, drop or truncation, but true bytes, and true lengths if any. */
  ghost predicate Truthful(p: Content, offset: nat, r: Reaction) {
    r.Response? ==>
      && (offset == 0 && r.status == 200 ==>
            (r.length.Declared? ==> r.length.bytes == |p|) && Concat(r.chunks) <= p)
      && (offset > 0 && r.status == 206 && r.range.Some? ==>
            (r.range.value.total.Some? ==> r.range.value.total.value == |p|)
            && (r.range.value.start == offset <= |p| ==> Concat(r.chunks) <= p[offset..]))
  }

  /** The answer declares the length of what it serves. */
  ghost predicate DeclaresLength(offset: nat, r: Reaction) {
    r.Response? ==>
      && (offset == 0 && r.status == 200 ==> r.length.Declared?)
      && (offset > 0 && r.status == 206 && r.range.Some? ==> r.range.value.total.Some?)
  }

  ghost predicate Honest(p: Content, offset: nat, r: Reaction) {
    Truthful(p, offset, r) && DeclaresLength(offset, r)
  }

  lemma TruthfulAttempt(l: Local, r: Reaction, c: Checks, p: Content)
    requires Measured(l) && Stored(l.part) <= p && Truthful(p, l.existing, r)
    ensures var a := Attempt(l, r, c);
            if a.Finished? then a.content <= p else Measured(a.next) && Stored(a.next.part) <= p
  {
    if r.Response? && l.existing > 0 && r.status == 206 && r.range.Some? && r.range.value.start == l.existing {
      assert p == Stored(l.part) + p[l.existing..];
      assert Stored(l.part) + Concat(r.chunks) <= p;
    }
    if r.Response? && l.existing == 0 {
      assert [] + Concat(r.chunks) == Concat(r.chunks);
    }
  }

  /**
   With a truthful server that may leave lengths undeclared, the finished file is still a prefix of
   the payload, hence the payload exactly when it is as long; a frozen size makes it so.
   */
  lemma {:induction false} TruthfulRun(l: Local, dest: Option<Content>, n: nat, retries: nat, server: Server, c: Checks,
                                       p: Content)
    requires n <= retries && Measured(l) && Stored(l.part) <= p
    requires forall k, offset :: Truthful(p, offset, server(k, offset))
    ensures var f := Run(l, dest, n, retries, server, c);
            && (f.result.Ok? ==> f.dest.Some? && f.dest.value <= p
                                 && (f.dest.value == p <==> |f.dest.value| == |p|)
                                 && (c.size == Some(|p|) ==> f.dest.value == p))
            && (f.result.Err? ==> Stored(f.part) <= p)
    decreases retries - n
  {
    if n < retries {
      var r := server(n + 1, l.existing);
      TruthfulAttempt(l, r, c, p);
      match Attempt(l, r, c)
      case Finished(content) =>
      case Restart(next) => TruthfulRun(next, dest, n + 1, retries, server, c, p);
      case Failed(next, fault) => if n + 1 < retries { TruthfulRun(next, dest, n + 1, retries, server, c, p); }
      case Fatal(next, fault) =>
    }
  }

  /** A cut-off answer without a length: with no frozen size or hash, half the payload is taken for all of it. */
  lemma UndeclaredTruncationIsAccepted(hash: Hash)
    ensures var p: Content := [1, 2];
            var c := Checks(None, None, hash);
            var server := (n, offset) => Response(200, NoLength, None, if offset == 0 then [[1]] else [], Complete);
            var f := Run(Start(None, c), None, 0, RETRIES, server, c);
            && (forall k: nat, offset: nat :: Truthful(p, offset, server(k, offset)))
            && f.result.Ok? && f.dest == Some([1])
  {
    var chunks: seq<Content> := [[1]];
    assert chunks[..0] == [] && Concat(chunks) == [] + [1];
    var c := Checks(None, None, hash);
    var r := Response(200, NoLength, None, chunks, Complete);
    assert Attempt(Start(None, c), r, c) == Finished([1]);
  }

  lemma HonestAttempt(l: Local, r: Reaction, c: Checks, p: Content)
    requires Measured(l) && Stored(l.part) <= p && Honest(p, l.existing, r)
    ensures var a := Attempt(l, r, c);
            if a.Finished? then a.content == p else Measured(a.next) && Stored(a.next.part) <= p
  {
    if r.Response? && l.existing > 0 && r.status == 206 && r.range.Some? && r.range.value.start == l.existing {
      assert p == Stored(l.part) + p[l.existing..];
      assert Stored(l.part) + Concat(r.chunks) <= p;
    }
    if r.Response? && l.existing == 0 {
      assert [] + Concat(r.chunks) == Concat(r.chunks);
    }
  }

  /** The partial file stays a prefix of the payload through drops and resumes, and success means the payload. */
  lemma {:induction false} HonestRun(l: Local, dest: Option<Content>, n: nat, retries: nat, server: Server, c: Checks,
                                     p: Content)
    requires n <= retries && Measured(l) && Stored(l.part) <= p
    requires forall k, offset :: Honest(p, offset, server(k, offset))
    ensures var f := Run(l, dest, n, retries, server, c);
            if f.result.Ok? then f.dest == Some(p) else Stored(f.part) <= p
    decreases retries - n
  {
    if n < retries {
      var r := server(n + 1, l.existing);
      HonestAttempt(l, r, c, p);
      match Attempt(l, r, c)
      case Finished(content) =>
      case Restart(next) => HonestRun(next, dest, n + 1, retries, server, c, p);
      case Failed(next, fault) => if n + 1 < retries { HonestRun(next, dest, n + 1, retries, server, c, p); }
      case Fatal(next, fault) =>
    }
  }

  // ------------------------------------------------------------------
  // What one answer does to a run
  // ------------------------------------------------------------------

  /** The lengths that an answer declares, over what was known before. */
  function Known(offset: nat, declared: Option<int>, r: Reaction): Option<int> {
    if r.Refused? then declared
    else if offset == 0 then if r.length.Declared? then Some(r.length.bytes) else declared
    else if r.range.Some? && r.range.value.total.Some? then Some(r.range.value.total.value)
    else declared
  }

  /** An answer whose body may be appended at the offset: a whole file from 0, or a rest that starts there. */
  ghost predicate Appends(offset: nat, r: Reaction) {
    && r.Response? && !r.length.Malformed?
    && if offset == 0 then r.status == 200
       else r.status == 206 && r.range.Some? && r.range.value.start == offset
            && (r.length.Declared? ==> r.range.value.end + 1 - offset == r.length.bytes)
  }

  /** A connection that drops in the body loses no byte: the next request resumes behind everything read. */
  lemma DropKeepsBytes(l: Local, dest: Option<Content>, n: nat, retries: nat, server: Server, c: Checks)
    requires n < retries && Measured(l)
    requires var r := server(n + 1, l.existing); Appends(l.existing, r) && r.ending == Broken
    ensures var r := server(n + 1, l.existing);
            var kept := Stored(l.part) + Concat(r.chunks);
            Run(l, dest, n, retries, server, c)
            == if n + 1 == retries then Final(Some(kept), dest, Err(ConnectionError), retries)
               else Run(Local(Some(kept), |kept|, Known(l.existing, l.declared, r)), dest, n + 1, retries, server, c)
  {
    var r := server(n + 1, l.existing);
    if l.existing == 0 { assert Stored(l.part) == []; }
  }

  /** A complete body that fails a check is forgotten altogether: the run goes on as one that starts from nothing. */
  lemma FailedCheckStartsOver(l: Local, dest: Option<Content>, n: nat, retries: nat, server: Server, c: Checks)
    requires n < retries && Measured(l)
    requires var r := server(n + 1, l.existing);
             && Appends(l.existing, r) && r.ending == Complete
             && var content := Stored(l.part) + Concat(r.chunks);
                var known := Known(l.existing, l.declared, r);
                (known.Some? && |content| != known.value) || !Passes(content, c)
    ensures Run(l, dest, n, retries, server, c)
            == if n + 1 == retries then Final(None, dest, Err(IntegrityError), retries)
               else Run(Start(None, c), dest, n + 1, retries, server, c)
  {
    if l.existing == 0 { assert Stored(l.part) == []; }
  }

  /** A range that does not start at the local offset, or is missing, starts over as well. */
  lemma WrongRangeStartsOver(l: Local, dest: Option<Content>, n: nat, retries: nat, server: Server, c: Checks)
    requires n < retries && l.existing > 0
    requires var r := server(n + 1, l.existing);
             && r.Response? && r.status != 200 && r.status != 416
             && (r.status != 206 || r.range.None? || r.range.value.start != l.existing
                 || (r.length.Declared? && r.range.value.end + 1 - l.existing != r.length.bytes))
    ensures Run(l, dest, n, retries, server, c)
            == if n + 1 == retries then Final(None, dest, Err(IntegrityError), retries)
               else Run(Start(None, c), dest, n + 1, retries, server, c)
  {
  }

  /** A resume answered with the whole file, or as unsatisfiable, restarts without the partial file. */
  lemma RestartsFromNothing(l: Local, dest: Option<Content>, n: nat, retries: nat, server: Server, c: Checks)
    requires n < retries && l.existing > 0
    requires var r := server(n + 1, l.existing);
             r == Refused(HttpError(416)) || (r.Response? && (r.status == 200 || r.status == 416))
    ensures Run(l, dest, n, retries, server, c)
            == if n + 1 < retries then Run(Local(None, 0, l.declared), dest, n + 1, retries, server, c)
               else
                 var fault := if server(n + 1, l.existing).Refused? then HttpError(416) else RuntimeError;
                 Final(None, dest, Err(fault), retries)
  {
  }

  /** 404 ends the run at once; other refusals are retried until the requests are spent, and the partial file stays. */
  lemma {:induction false} RefusalsSpendRetries(l: Local, dest: Option<Content>, n: nat, retries: nat, server: Server,
                                                c: Checks, fault: Fault)
    requires n < retries && forall k, offset :: server(k, offset) == Refused(fault)
    requires fault != HttpError(416) && !fault.UncaughtError? && !fault.IntegrityError?
    ensures Run(l, dest, n, retries, server, c)
            == Final(l.part, dest, Err(fault), if fault == HttpError(404) then n + 1 else retries)
    decreases retries - n
  {
    if fault != HttpError(404) && n + 1 < retries {
      RefusalsSpendRetries(l, dest, n + 1, retries, server, c, fault);
    }
  }

  // ------------------------------------------------------------------
  // Progress
  // ------------------------------------------------------------------

  /** An answer for payload p that completes, or breaks off after at least one further byte and short of the end. */
  ghost predicate Progresses(p: Content, offset: nat, r: Reaction) {
    offset < |p| || offset == 0 ==>
      && Appends(offset, r)
      && (Known(offset, None, r).Some? ==> Known(offset, None, r).value == |p|)
      && var got := Concat(r.chunks);
         if r.ending == Complete then got == p[offset..]
         else r.ending == Broken && 0 < |got| < |p| - offset && got == p[offset..offset + |got|]
  }

  /** The checks given are those of payload p. */
  ghost predicate ChecksFor(p: Content, c: Checks) {
    (c.size.Some? ==> c.size.value == |p|) && (c.sha.Some? ==> c.sha.value == c.hash(p))
  }

  /** A loop head on the way to payload p: a prefix of it, short of the end, and no wrong length known. */
  ghost predicate OnTheWay(p: Content, l: Local) {
    && Measured(l) && Stored(l.part) <= p && (l.existing < |p| || p == [])
    && (l.declared.Some? ==> l.declared.value == |p|)
  }

  /** The loop head behind a dropped body. */
  function Behind(l: Local, r: Reaction): Local
    requires r.Response?
  {
    var kept := Stored(l.part) + Concat(r.chunks);
    Local(Some(kept), |kept|, Known(l.existing, l.declared, r))
  }

  lemma BrokenGrows(l: Local, r: Reaction, p: Content)
    requires OnTheWay(p, l) && Progresses(p, l.existing, r) && r.Response? && r.ending == Broken
    ensures Appends(l.existing, r) && OnTheWay(p, Behind(l, r)) && l.existing < Behind(l, r).existing < |p|
  {
    var got := Concat(r.chunks);
    hide Concat;
    assert Stored(l.part) == p[..l.existing];
    assert Stored(l.part) + got == p[..l.existing + |got|];
  }

  lemma CompleteFinishes(l: Local, dest: Option<Content>, n: nat, retries: nat, server: Server, c: Checks, p: Content)
    requires n < retries && OnTheWay(p, l) && ChecksFor(p, c)
    requires var r := server(n + 1, l.existing); Progresses(p, l.existing, r) && r.Response? && r.ending != Broken
    ensures Run(l, dest, n, retries, server, c) == Final(None, Some(p), Ok((|p|, c.hash(p))), n + 1)
  {
    var r := server(n + 1, l.existing);
    assert Stored(l.part) == p[..l.existing] && p == p[..l.existing] + p[l.existing..];
    hide Concat;
    assert r.ending == Complete && Concat(r.chunks) == p[l.existing..];
    if l.existing == 0 { assert [] + Concat(r.chunks) == p; }
    assert Attempt(l, r, c) == Finished(p);
  }

  /**
   Every dropped connection that delivered a byte brings the download nearer: as many requests as
   bytes are missing suffice, and at least one.
   */
  lemma {:induction false} ProgressFinishes(l: Local, dest: Option<Content>, n: nat, retries: nat, server: Server,
                                            c: Checks, p: Content)
    requires OnTheWay(p, l) && ChecksFor(p, c)
    requires forall k, offset :: Progresses(p, offset, server(k, offset))
    requires n < retries && n + |p| - l.existing <= retries
    ensures var f := Run(l, dest, n, retries, server, c);
            && f.result == Ok((|p|, c.hash(p))) && f.dest == Some(p) && f.part == None
            && f.requests <= if p == [] then n + 1 else n + |p| - l.existing
    decreases retries - n
  {
    var r := server(n + 1, l.existing);
    assert Progresses(p, l.existing, r) && r.Response? && Measured(l) && (l.existing < |p| || p == []);
    hide Run, Progresses, Appends, ChecksFor, OnTheWay, Concat, Stored;
    if r.ending == Broken {
      BrokenGrows(l, r, p);
      DropKeepsBytes(l, dest, n, retries, server, c);
      ProgressFinishes(Behind(l, r), dest, n + 1, retries, server, c, p);
    } else {
      CompleteFinishes(l, dest, n, retries, server, c, p);
    }
  }

  // ------------------------------------------------------------------
  // Recovery with an error-free server and frozen checks
  // ------------------------------------------------------------------

  /** The whole payload, as a 200 answer. */
  ghost predicate ServesAll(p: Content, r: Reaction) {
    && r.Response? && r.status == 200 && r.ending == Complete && Concat(r.chunks) == p
    && (r.length == NoLength || r.length == Declared(|p|))
  }

  /** The rest of the payload from offset on, as a 206 answer. */
  ghost predicate ServesRest(p: Content, offset: nat, r: Reaction) {
    && offset < |p|
    && r.Response? && r.status == 206 && r.ending == Complete && Concat(r.chunks) == p[offset..]
    && (r.length == NoLength || r.length == Declared(|p| - offset))
    && (r.range == Some(Range(offset, |p| - 1, Some(|p|))) || r.range == Some(Range(offset, |p| - 1, None)))
  }

  /** 416, as the exception the opener raises or as a plain response. */
  ghost predicate Unsatisfiable(p: Content, offset: nat, r: Reaction) {
    offset >= |p| && (r == Refused(HttpError(416)) || (r.Response? && r.status == 416))
  }

  /** An error-free answer that honours or ignores the Range header, request by request. */
  ghost predicate ErrorFree(p: Content, offset: nat, r: Reaction) {
    if offset == 0 then ServesAll(p, r)
    else ServesAll(p, r) || ServesRest(p, offset, r) || Unsatisfiable(p, offset, r)
  }

  /** The frozen size and hash of the payload. */
  ghost predicate FrozenFor(p: Content, c: Checks) {
    c.size == Some(|p|) && c.sha == Some(c.hash(p))
  }

  lemma FreshAttempt(l: Local, r: Reaction, c: Checks, p: Content)
    requires l.existing == 0 && ServesAll(p, r) && FrozenFor(p, c)
    requires l.declared == None || l.declared == Some(|p|)
    ensures Attempt(l, r, c) == Finished(p)
  {
    assert [] + p == p;
  }

  /** What one error-free request does from any partial file at all. */
  lemma ResumeAttempt(l: Local, r: Reaction, c: Checks, p: Content)
    requires Measured(l) && l.existing > 0 && l.declared == Some(|p|)
    requires ErrorFree(p, l.existing, r) && FrozenFor(p, c)
    ensures var a := Attempt(l, r, c);
            if ServesRest(p, l.existing, r) && c.hash(Stored(l.part) + p[l.existing..]) == c.hash(p)
            then a == Finished(Stored(l.part) + p[l.existing..])
            else (a.Restart? || a.Failed?) && a.next == Local(None, 0, Some(|p|))
  {
    if ServesRest(p, l.existing, r) {
      assert |Stored(l.part) + p[l.existing..]| == |p|;
    }
  }

  /**
   Recovery: whatever bytes the partial file holds, two requests suffice, and one request suffices
   exactly when there is nothing to resume or the resumed file already has the frozen hash.
   */
  lemma RecoversWithinTwo(part: Option<Content>, dest: Option<Content>, retries: nat, server: Server, c: Checks,
                          p: Content)
    requires retries >= 1 && FrozenFor(p, c)
    requires forall k, offset :: ErrorFree(p, offset, server(k, offset))
    ensures var f := Run(Start(part, c), dest, 0, retries, server, c);
            var s := Stored(part);
            var once := s == [] || (ServesRest(p, |s|, server(1, |s|)) && c.hash(s + p[|s|..]) == c.hash(p));
            && (f.result.Ok? <==> once || retries >= 2)
            && (f.result.Ok? ==> f.requests == if once then 1 else 2)
            && (f.result.Ok? ==> f.dest.Some? && |f.dest.value| == |p| && c.hash(f.dest.value) == c.hash(p))
  {
    var l := Start(part, c);
    var s := Stored(part);
    var r := server(1, l.existing);
    RunIsSafe(l, dest, 0, retries, server, c);
    if s == [] {
      FreshAttempt(l, r, c, p);
    } else {
      ResumeAttempt(l, r, c, p);
      var a := Attempt(l, r, c);
      if !a.Finished? && retries >= 2 {
        FreshAttempt(a.next, server(2, 0), c, p);
        assert Run(a.next, dest, 1, retries, server, c).result.Ok?;
      }
    }
  }

  /**
   Without a frozen hash a resume splices: the finished file is the payload exactly when the old
   partial file was a prefix of it.
   */
  lemma SpliceExact(part: Content, dest: Option<Content>, retries: nat, server: Server, c: Checks, p: Content)
    requires retries >= 1 && 0 < |part| < |p| && c.sha == None && (c.size == None || c.size == Some(|p|))
    requires ServesRest(p, |part|, server(1, |part|))
    ensures var f := Run(Start(Some(part), c), dest, 0, retries, server, c);
            f.result.Ok? && f.dest == Some(part + p[|part|..]) && (f.dest == Some(p) <==> part <= p)
  {
    var l := Start(Some(part), c);
    var joined := part + p[|part|..];
    assert |joined| == |p| && Attempt(l, server(1, |part|), c) == Finished(joined);
    assert p[..|part|] + p[|part|..] == p;
    if joined == p { assert part == joined[..|part|]; }
  }

  /** A foreign partial file that ends up in the finished file, with an honest server and a frozen size. */
  lemma ForeignPartialIsSpliced(hash: Hash)
    ensures var part: Content, p: Content := [0], [1, 2];
            var c := Checks(Some(2), None, hash);
            var server := (n, offset) => Response(206, NoLength, Some(Range(1, 1, Some(2))), [[2]], Complete);
            var f := Run(Start(Some(part), c), None, 0, RETRIES, server, c);
            ServesRest(p, 1, server(1, 1)) && f.result.Ok? && f.dest == Some([0, 2]) && f.dest != Some(p)
  {
    var part: Content, p: Content := [0], [1, 2];
    var c := Checks(Some(2), None, hash);
    var server := (n, offset) => Response(206, NoLength, Some(Range(1, 1, Some(2))), [[2]], Complete);
    var chunks: seq<Content> := [[2]];
    assert chunks[..0] == [] && Concat(chunks) == [] + [2] == p[1..];
    SpliceExact(part, None, RETRIES, server, c, p);
    assert part + p[1..] == [0, 2];
  }

  // ------------------------------------------------------------------
  // The command: an existing file, then one candidate after another
  // ------------------------------------------------------------------

  const RETRIES := 8

  /** ensure_valid_existing: an existing file that fails a check is deleted. */
  method EnsureValidExisting(w: Workspace, c: Checks) returns (valid: bool)
    modifies w`dest
    ensures valid <==> old(w.dest).Some? && Passes(old(w.dest).value, c)
    ensures w.dest == if valid then old(w.dest) else None
  {
    if w.dest.None? {
      return false;
    }
    if c.size.Some? && |w.dest.value| != c.size.value {
      w.dest := None;
      return false;
    }
    if c.sha.Some? && c.hash(w.dest.value) != c.sha.value {
      w.dest := None;
      return false;
    }
    valid := true;
  }

  /** The candidate has the file whose size and hash are frozen, and answers without errors. */
  ghost predicate ServesFrozen(server: Server, c: Checks) {
    exists p :: FrozenFor(p, c) && forall k, offset :: ErrorFree(p, offset, server(k, offset))
  }

  lemma GoodCandidateSuffices(part: Option<Content>, server: Server, c: Checks)
    requires ServesFrozen(server, c)
    ensures Run(Start(part, c), None, 0, RETRIES, server, c).result.Ok?
  {
    var p :| FrozenFor(p, c) && forall k, offset :: ErrorFree(p, offset, server(k, offset));
    RecoversWithinTwo(part, None, RETRIES, server, c, p);
  }

  /**
   main: whatever the candidates answer, the file left behind passes every check, or there is none;
   and one good candidate is enough, whatever the candidates before it did to the partial file.
   */
  method Fetch(w: Workspace, candidates: seq<Server>, c: Checks) returns (found: bool)
    modifies w
    ensures found ==> w.dest.Some? && Passes(w.dest.value, c)
    ensures !found ==> w.dest == None
    ensures old(w.dest).Some? && Passes(old(w.dest).value, c) ==>
              found && w.dest == old(w.dest) && w.part == old(w.part)
    ensures (exists k :: 0 <= k < |candidates| && ServesFrozen(candidates[k], c)) ==> found
  {
    found := EnsureValidExisting(w, c);
    if found {
      return;
    }
    for i := 0 to |candidates|
      invariant w.dest == None
      invariant forall k :: 0 <= k < i ==> !ServesFrozen(candidates[k], c)
    {
      hide ServesFrozen, Passes;
      found := TryCandidate(w, candidates[i], c);
      if found {
        return;
      }
    }
    found := false;
  }

  /** One candidate, with no finished file yet. */
  method TryCandidate(w: Workspace, candidate: Server, c: Checks) returns (ok: bool)
    requires w.dest == None
    modifies w
    ensures ok ==> w.dest.Some? && Passes(w.dest.value, c)
    ensures !ok ==> w.dest == None
    ensures ServesFrozen(candidate, c) ==> ok
  {
    RunIsSafe(Start(w.part, c), None, 0, RETRIES, candidate, c);
    if ServesFrozen(candidate, c) { GoodCandidateSuffices(w.part, candidate, c); }
    hide Run, Start, ServesFrozen, Passes;
    var result, _ := w.Download(RETRIES, candidate, c);
    ok := result.Ok?;
    if result == Err(IntegrityError) {
      w.part := None;
    }
  }
}
