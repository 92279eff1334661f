/** Outcomes shared by every module: optional values, the library's exceptions as
    values, and the sequential traversal behind its decoding loops. */
module Results {

  datatype Option<+T> = None | Some(value: T)

  /** The kinds a reply can announce; also used to say which kind a decoder expected. */
  datatype ReplyType = STRING | ARRAY | INTEGER | NIL | STATUS | ERROR | DOUBLE | BOOL

  /** The exceptions the library lets escape. Message text is kept only where a
      caller can read it back (`redis_error::redis_message`). */
  datatype Error =
    | InvalidArgument
    | LengthError
    | OutOfRange
    | RuntimeError
    | TooManyScriptKeys
    | UnexpectedReplyType(expected: ReplyType)
    | NoScript
    | RedisError(message: string)
    | TransportFailure

  datatype Result<+T> = Ok(value: T) | Err(error: Error) {
    predicate IsFailure() {
      Err?
    }

    function PropagateFailure<U>(): Result<U>
      requires Err?
    {
      Err(error)
    }

    function Extract(): T
      requires Ok?
    {
      value
    }
  }

  /** Applies `f` from left to right and stops at the first error. */
  function Traverse<A, B>(f: A -> Result<B>, xs: seq<A>): Result<seq<B>> {
    if xs == [] then Ok([])
    else
      var init :- Traverse(f, xs[..|xs| - 1]);
      var last :- f(xs[|xs| - 1]);
      Ok(init + [last])
  }

  /** Traversal succeeds with `ys` exactly when every element succeeds with its own `ys[i]`. */
  lemma {:induction false} TraverseOk<A, B>(f: A -> Result<B>, xs: seq<A>, ys: seq<B>)
    ensures Traverse(f, xs) == Ok(ys) <==>
            |ys| == |xs| && forall i :: 0 <= i < |xs| ==> f(xs[i]) == Ok(ys[i])
  {
    if xs == [] {
    } else {
      var n := |xs| - 1;
      if |ys| == |xs| {
        TraverseOk(f, xs[..n], ys[..n]);
        assert ys == ys[..n] + [ys[n]];
        assert forall i :: 0 <= i < n ==> xs[..n][i] == xs[i] && ys[..n][i] == ys[i];
        if Traverse(f, xs) == Ok(ys) {
          assert Traverse(f, xs[..n]).value == ys[..n];
        }
      } else if Traverse(f, xs) == Ok(ys) {
        var init := Traverse(f, xs[..n]).value;
        TraverseOk(f, xs[..n], init);
      }
    }
  }

  /** An error met while traversing a prefix is the error of the whole traversal. */
  lemma {:induction false} TraverseStops<A, B>(f: A -> Result<B>, xs: seq<A>, n: nat)
    requires n <= |xs| && Traverse(f, xs[..n]).Err?
    ensures Traverse(f, xs) == Err(Traverse(f, xs[..n]).error)
  {
    if n == |xs| {
      assert xs[..n] == xs;
    } else {
      assert xs[..|xs| - 1][..n] == xs[..n];
      TraverseStops(f, xs[..|xs| - 1], n);
    }
  }

  /** One more element extends a successful traversal. */
  lemma TraverseSnoc<A, B>(f: A -> Result<B>, xs: seq<A>, n: nat)
    requires n < |xs|
    ensures xs[..n + 1][..n] == xs[..n] && xs[..n + 1][n] == xs[n]
    ensures Traverse(f, xs[..n]).Ok? && f(xs[n]).Ok? ==>
              Traverse(f, xs[..n + 1]) == Ok(Traverse(f, xs[..n]).value + [f(xs[n]).value])
    ensures Traverse(f, xs[..n]).Ok? && f(xs[n]).Err? ==>
              Traverse(f, xs) == Err(f(xs[n]).error)
  {
    assert xs[..n + 1][..n] == xs[..n];
    if Traverse(f, xs[..n]).Ok? && f(xs[n]).Err? {
      TraverseStops(f, xs, n + 1);
    }
  }

  /** The first element that fails decides the error. */
  lemma {:induction false} TraverseFails<A, B>(f: A -> Result<B>, xs: seq<A>, n: nat)
    requires n < |xs| && f(xs[n]).Err? && forall i :: 0 <= i < n ==> f(xs[i]).Ok?
    ensures Traverse(f, xs) == Err(f(xs[n]).error)
  {
    if n == |xs| - 1 {
      TraverseTotal(f, xs[..n]);
    } else {
      TraverseFails(f, xs[..|xs| - 1], n);
    }
  }

  lemma {:induction false} TraverseTotal<A, B>(f: A -> Result<B>, xs: seq<A>)
    ensures Traverse(f, xs).Ok? <==> forall i :: 0 <= i < |xs| ==> f(xs[i]).Ok?
  {
    if xs != [] {
      var init, last := xs[..|xs| - 1], xs[|xs| - 1];
      TraverseTotal(f, init);
      assert forall i :: 0 <= i < |xs| - 1 ==> xs[i] == init[i];
    }
  }

  /** If all elements can only fail in one way, so can the traversal. */
  lemma {:induction false} TraverseOneError<A, B>(f: A -> Result<B>, xs: seq<A>, e: Error)
    requires forall i :: 0 <= i < |xs| && f(xs[i]).Err? ==> f(xs[i]).error == e
    ensures Traverse(f, xs).Err? ==> Traverse(f, xs).error == e
  {
    if xs != [] {
      TraverseOneError(f, xs[..|xs| - 1], e);
    }
  }
}
