// The typed error model: what callers observe of a wrap chain.
module ErrorChain {
  import opened Options

  datatype Kind =
    | Unspecified | NotFound | Conflict | Validation | Forbidden | Unauthenticated | BadGateway | Internal

  datatype FieldError = FieldError(location: string, message: string)

  // A chain of errors; Nil is the nil error. A foreign error is any other type,
  // with what its Unwrap returns.
  datatype Err =
    | Nil
    | Foreign(text: string, inner: Err)
    | Typed(kind: Kind, msg: string, op: string, fields: seq<FieldError>, wrapped: Err, retryOverride: Option<bool>)

  function Unwrap(e: Err): Err
    requires e != Nil
  {
    if e.Foreign? then e.inner else e.wrapped
  }

  // ------------------------------------------------- what a chain answers

  function KindOf(e: Err): Kind
  {
    if e.Nil? then Unspecified
    else if e.Typed? && e.kind != Unspecified then e.kind
    else KindOf(Unwrap(e))
  }

  function FirstOverride(e: Err): Option<bool>
  {
    if e.Nil? then None
    else if e.Typed? && e.retryOverride.Some? then e.retryOverride
    else FirstOverride(Unwrap(e))
  }

  predicate RetryableByKind(kind: Kind)
  {
    kind == BadGateway || kind == Internal || kind == Unspecified
  }

  // An override anywhere in the chain decides; otherwise the chain's kind does.
  predicate Retryable(e: Err)
  {
    e != Nil &&
    match FirstOverride(e)
    case Some(decision) => decision
    case None => RetryableByKind(KindOf(e))
  }

  function FieldsOf(e: Err): seq<FieldError>
  {
    if e.Nil? then []
    else if e.Typed? && e.fields != [] then e.fields
    else FieldsOf(Unwrap(e))
  }

  function OpOf(e: Err): string
  {
    if e.Nil? then ""
    else if e.Typed? && e.op != "" then e.op
    else OpOf(Unwrap(e))
  }

  // The walk that computes Retryable in one pass.
  method IsRetryable(err: Err) returns (retry: bool)
    ensures retry == Retryable(err)
  {
    if err.Nil? { return false; }
    var topKind, sawTyped := Unspecified, false;
    var cur := err;
    while !cur.Nil?
      invariant FirstOverride(cur) == FirstOverride(err)
      invariant if sawTyped then topKind == KindOf(err) && topKind != Unspecified else KindOf(cur) == KindOf(err)
      decreases cur
    {
      if cur.Typed? {
        if cur.retryOverride.Some? { return cur.retryOverride.value; }
        if !sawTyped && cur.kind != Unspecified { topKind, sawTyped := cur.kind, true; }
      }
      cur := Unwrap(cur);
    }
    if sawTyped { return RetryableByKind(topKind); }
    return true;
  }

  method ComputeKind(err: Err) returns (kind: Kind)
    ensures kind == KindOf(err)
  {
    var cur := err;
    while !cur.Nil?
      invariant KindOf(cur) == KindOf(err)
      decreases cur
    {
      if cur.Typed? && cur.kind != Unspecified { return cur.kind; }
      cur := Unwrap(cur);
    }
    return Unspecified;
  }

  method ComputeOp(err: Err) returns (op: string)
    ensures op == OpOf(err)
  {
    var cur := err;
    while !cur.Nil?
      invariant OpOf(cur) == OpOf(err)
      decreases cur
    {
      if cur.Typed? && cur.op != "" { return cur.op; }
      cur := Unwrap(cur);
    }
    return "";
  }

  method ComputeFields(err: Err) returns (fields: seq<FieldError>)
    ensures fields == FieldsOf(err)
  {
    var cur := err;
    while !cur.Nil?
      invariant FieldsOf(cur) == FieldsOf(err)
      decreases cur
    {
      if cur.Typed? && |cur.fields| > 0 { return cur.fields; }
      cur := Unwrap(cur);
    }
    return [];
  }

  // ------------------------------------------------- frame by frame

  // The errors of a chain, outermost first.
  function Frames(e: Err): seq<Err>
  {
    if e.Nil? then [] else [e] + Frames(Unwrap(e))
  }

  // Frame i is the outermost of which p holds.
  predicate Outermost(frames: seq<Err>, p: Err -> bool, i: nat)
  {
    i < |frames| && p(frames[i]) && forall j :: 0 <= j < i ==> !p(frames[j])
  }

  function HasKind(): Err -> bool { (e: Err) => e.Typed? && e.kind != Unspecified }

  function HasFields(): Err -> bool { (e: Err) => e.Typed? && e.fields != [] }

  function HasOp(): Err -> bool { (e: Err) => e.Typed? && e.op != "" }

  function Overrides(): Err -> bool { (e: Err) => e.Typed? && e.retryOverride.Some? }

  lemma OutermostBehind(e: Err, p: Err -> bool, i: nat)
    requires e != Nil && Outermost(Frames(e), p, i)
    ensures if i == 0 then p(e) else !p(e) && Outermost(Frames(Unwrap(e)), p, i - 1)
  {
    var rest := Frames(Unwrap(e));
    assert Frames(e)[0] == e && forall j :: 0 <= j < |rest| ==> Frames(e)[j + 1] == rest[j];
  }

  lemma NoneBehind(e: Err, p: Err -> bool)
    requires e != Nil && forall f :: f in Frames(e) ==> !p(f)
    ensures !p(e) && forall f :: f in Frames(Unwrap(e)) ==> !p(f)
  {
    assert e in Frames(e);
  }

  // Every answer is that of the outermost frame that has one.
  lemma {:induction false} AnswersOutermost(e: Err, i: nat)
    ensures Outermost(Frames(e), HasKind(), i) ==> KindOf(e) == Frames(e)[i].kind
    ensures Outermost(Frames(e), HasFields(), i) ==> FieldsOf(e) == Frames(e)[i].fields
    ensures Outermost(Frames(e), HasOp(), i) ==> OpOf(e) == Frames(e)[i].op
    ensures Outermost(Frames(e), Overrides(), i) ==> Retryable(e) == Frames(e)[i].retryOverride.value
    ensures Outermost(Frames(e), Overrides(), i) ==> FirstOverride(e) == Frames(e)[i].retryOverride
    decreases e
  {
    if e != Nil {
      if i > 0 { AnswersOutermost(Unwrap(e), i - 1); }
      if Outermost(Frames(e), HasKind(), i) { OutermostBehind(e, HasKind(), i); }
      if Outermost(Frames(e), HasFields(), i) { OutermostBehind(e, HasFields(), i); }
      if Outermost(Frames(e), HasOp(), i) { OutermostBehind(e, HasOp(), i); }
      if Outermost(Frames(e), Overrides(), i) { OutermostBehind(e, Overrides(), i); }
    }
  }

  // Without any, the kind is unspecified and the rest empty.
  lemma {:induction false} AnswersMissing(e: Err)
    ensures (forall f :: f in Frames(e) ==> !HasKind()(f)) ==> KindOf(e) == Unspecified
    ensures (forall f :: f in Frames(e) ==> !HasFields()(f)) ==> FieldsOf(e) == []
    ensures (forall f :: f in Frames(e) ==> !HasOp()(f)) ==> OpOf(e) == ""
    ensures (forall f :: f in Frames(e) ==> !Overrides()(f)) ==> FirstOverride(e) == None
    decreases e
  {
    if e != Nil {
      AnswersMissing(Unwrap(e));
      if forall f :: f in Frames(e) ==> !HasKind()(f) { NoneBehind(e, HasKind()); }
      if forall f :: f in Frames(e) ==> !HasFields()(f) { NoneBehind(e, HasFields()); }
      if forall f :: f in Frames(e) ==> !HasOp()(f) { NoneBehind(e, HasOp()); }
      if forall f :: f in Frames(e) ==> !Overrides()(f) { NoneBehind(e, Overrides()); }
    }
  }

  // Without an override what can be retried is what went wrong inside or upstream: a
  // request that was itself at fault is not.
  lemma RetryableExactly(e: Err)
    requires e != Nil && forall f :: f in Frames(e) ==> !Overrides()(f)
    ensures Retryable(e) <==> KindOf(e) !in {NotFound, Conflict, Validation, Forbidden, Unauthenticated}
    ensures !Retryable(Nil)
  {
    AnswersMissing(e);
  }

  // ------------------------------------------------- annotating a chain

  function Wrap(e: Err, msg: string): Err
  {
    if e.Nil? then Nil else Typed(KindOf(e), msg, "", [], e, None)
  }

  function WithOp(e: Err, op: string): Err
  {
    match e
    case Nil => Nil
    case Typed(kind, msg, _, fields, wrapped, override) => Typed(kind, msg, op, fields, wrapped, override)
    case Foreign(_, _) => Typed(KindOf(e), "", op, [], e, None)
  }

  function NotRetryable(e: Err): Err
    requires e.Typed?
  {
    e.(retryOverride := Some(false))
  }

  datatype Annotation = Wrapping(msg: string) | Operation(op: string)

  function Annotate(e: Err, annotations: seq<Annotation>): Err
    decreases |annotations|
  {
    if annotations == [] then e
    else
      match annotations[0]
      case Wrapping(msg) => Annotate(Wrap(e, msg), annotations[1..])
      case Operation(op) => Annotate(WithOp(e, op), annotations[1..])
  }

  predicate SameAnswers(a: Err, b: Err)
  {
    && (a.Nil? <==> b.Nil?)
    && KindOf(a) == KindOf(b) && FirstOverride(a) == FirstOverride(b)
    && Retryable(a) == Retryable(b) && FieldsOf(a) == FieldsOf(b)
  }

  // However often an error is wrapped or tagged on its way up, and wherever a
  // retry override sits in its chain, its kind, retry decision and field details
  // are those of the original.
  lemma {:induction false} AnnotationsAreTransparent(e: Err, annotations: seq<Annotation>)
    ensures SameAnswers(Annotate(e, annotations), e)
    decreases |annotations|
  {
    if annotations != [] {
      match annotations[0]
      case Wrapping(msg) => AnnotationsAreTransparent(Wrap(e, msg), annotations[1..]);
      case Operation(op) => AnnotationsAreTransparent(WithOp(e, op), annotations[1..]);
    }
  }

  // A recorded operation can be read back.
  lemma OperationRecorded(e: Err, op: string)
    requires e != Nil && op != ""
    ensures OpOf(WithOp(e, op)) == op
  {
  }

  // The operation recorded last stays readable however often the error is then
  // wrapped.
  lemma {:induction false} OperationSurvivesWrapping(e: Err, op: string, wraps: seq<Annotation>)
    requires e != Nil && op != "" && OpOf(e) == op
    requires forall i :: 0 <= i < |wraps| ==> wraps[i].Wrapping?
    ensures OpOf(Annotate(e, wraps)) == op
    decreases |wraps|
  {
    if wraps != [] { OperationSurvivesWrapping(Wrap(e, wraps[0].msg), op, wraps[1..]); }
  }

  // An invariant violation marked not retryable stays so through any annotation.
  lemma NotRetryableSticks(e: Err, annotations: seq<Annotation>)
    requires e.Typed?
    ensures !Retryable(Annotate(NotRetryable(e), annotations))
  {
    AnnotationsAreTransparent(NotRetryable(e), annotations);
  }
}
