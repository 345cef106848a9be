/** Shared vocabulary of the request handlers: optional values, HTTP replies,
    the caller's credential, and order-keeping filters over sequences. */
module Base {

  datatype Option<+T> = None | Some(value: T)

  /** Status codes the handlers answer with. */
  const BadRequest: nat := 400
  const Unauthorized: nat := 401
  const Forbidden: nat := 403
  const NotFound: nat := 404
  const Conflict: nat := 409
  const ServerError: nat := 500

  /** A handler's answer: a JSON body on success, or an error status. */
  datatype Reply<+T> = Ok(value: T) | Fail(status: nat)

  /** The identity carried by a verified token cookie. */
  datatype Principal = Principal(id: int, email: string, isAdmin: bool)

  /** What a protected handler learns from the `token` cookie: no cookie, a
      token that fails verification, or the verified principal. */
  datatype Credential = NoToken | InvalidToken | Verified(principal: Principal)

  /** The guard of the admin-only handlers: 401 for a missing or invalid
      token, then 403 for a caller who is not an admin; `None` lets the
      request through. */
  function AdminGuard(credential: Credential): (r: Option<nat>)
    ensures r.None? <==> credential.Verified? && credential.principal.isAdmin
    ensures !credential.Verified? ==> r == Some(Unauthorized)
    ensures credential.Verified? && !credential.principal.isAdmin ==> r == Some(Forbidden)
  {
    match credential
    case NoToken => Some(Unauthorized)
    case InvalidToken => Some(Unauthorized)
    case Verified(p) => if p.isAdmin then None else Some(Forbidden)
  }

  /** A JSON body field the handler expects to hold a string: absent (or
      null), a string, or a value of another type, truthy or not. */
  datatype JsonField = Missing | Str(s: string) | Other(truthy: bool)

  /** JavaScript's `!field`. */
  predicate Falsy(f: JsonField) {
    f.Missing? || f == Str("") || f == Other(false)
  }

  /** An upload folder under `public/images`, as the list of file names
      written to it. */
  class ImageFolder {
    var written: seq<string>

    constructor ()
      ensures written == []
    {
      written := [];
    }
  }

  /** `xs` in order, keeping only the elements that satisfy `p`. */
  function Keep<T(==)>(xs: seq<T>, p: T -> bool): (r: seq<T>)
    ensures forall x <- r :: x in xs && p(x)
    ensures forall x <- xs :: p(x) ==> x in r
    ensures |r| <= |xs|
    ensures SubsequenceOf(r, xs)
  {
    if xs == [] then []
    else if p(xs[0]) then [xs[0]] + Keep(xs[1..], p)
    else Keep(xs[1..], p)
  }

  /** `r` is obtained from `xs` by deleting elements, without reordering. */
  predicate SubsequenceOf<T(==)>(r: seq<T>, xs: seq<T>)
    decreases |xs|
  {
    if r == [] then true
    else if xs == [] then false
    else (r[0] == xs[0] && SubsequenceOf(r[1..], xs[1..])) || SubsequenceOf(r, xs[1..])
  }

  /** Filtering a concatenation filters each part. */
  lemma {:induction false} KeepAppend<T>(xs: seq<T>, ys: seq<T>, p: T -> bool)
    ensures Keep(xs + ys, p) == Keep(xs, p) + Keep(ys, p)
  {
    if xs == [] {
      assert xs + ys == ys;
    } else {
      assert (xs + ys)[0] == xs[0];
      assert (xs + ys)[1..] == xs[1..] + ys;
      KeepAppend(xs[1..], ys, p);
    }
  }

  /** Removing an element the filter drops does not change the filtered
      sequence. */
  lemma {:induction false} KeepRemoveDropped<T>(xs: seq<T>, k: nat, p: T -> bool)
    requires k < |xs| && !p(xs[k])
    ensures Keep(xs[..k] + xs[k + 1..], p) == Keep(xs, p)
  {
    if k == 0 {
      assert xs[..k] + xs[k + 1..] == xs[1..];
    } else {
      var tail := xs[1..];
      assert tail[k - 1] == xs[k];
      KeepRemoveDropped(tail, k - 1, p);
      assert tail[..k - 1] + tail[k..] == (xs[..k] + xs[k + 1..])[1..];
      assert (xs[..k] + xs[k + 1..])[0] == xs[0];
    }
  }

  /** Filtering `x + m + y` depends on the middle part only through what
      the filter keeps of it. */
  lemma KeepAround<T>(x: seq<T>, m1: seq<T>, m2: seq<T>, y: seq<T>, p: T -> bool)
    requires Keep(m1, p) == Keep(m2, p)
    ensures Keep(x + m1 + y, p) == Keep(x + m2 + y, p)
  {
    KeepAppend(x, m1, p);
    KeepAppend(x + m1, y, p);
    KeepAppend(x, m2, p);
    KeepAppend(x + m2, y, p);
  }

  /** Filtering with a predicate that holds everywhere keeps everything. */
  lemma {:induction false} KeepAll<T>(xs: seq<T>, p: T -> bool)
    requires forall x <- xs :: p(x)
    ensures Keep(xs, p) == xs
  {
    if xs != [] {
      KeepAll(xs[1..], p);
    }
  }

  /** No element occurs twice. */
  predicate Distinct<T(==)>(xs: seq<T>) {
    forall i, j :: 0 <= i < j < |xs| ==> xs[i] != xs[j]
  }

  /** Filtering a sequence without repetitions leaves one without
      repetitions. */
  lemma {:induction false} KeepDistinct<T>(xs: seq<T>, p: T -> bool)
    requires Distinct(xs)
    ensures Distinct(Keep(xs, p))
  {
    if xs != [] {
      KeepDistinct(xs[1..], p);
      var rest := Keep(xs[1..], p);
      if p(xs[0]) {
        assert xs[0] !in xs[1..];
        assert xs[0] !in rest;
        var r := [xs[0]] + rest;
        forall i, j | 0 <= i < j < |r| ensures r[i] != r[j] {
          if i == 0 {
            assert r[j] in rest;
          } else {
            assert r[i] == rest[i - 1] && r[j] == rest[j - 1];
          }
        }
      }
    }
  }
}
