/** The 42 API client: one request with its retries, and a whole collection page by page. */
module Client {
  import opened Wrappers

  const PAGE_SIZE := 100
  const MAX_RETRIES := 5

  datatype Body<T> = NotArray | Array(records: seq<T>)

  /** What one attempt meets: no response at all, or a status with its headers and a body that can be read or not. */
  datatype Reply<T> = NoResponse | Response(status: int, retryAfter: Option<int>, body: Option<Body<T>>, total: Option<int>) {
    predicate Retryable() {
      Response? && (status == 429 || status >= 500)
    }
  }

  /** A server's replies to the attempts of one request, and whether the caller gives up during the wait after an attempt. */
  datatype Exchange<!T> = Exchange(reply: nat -> Reply<T>, cancelled: nat -> bool)

  datatype Outcome<T> = Error | Fetched(body: Body<T>, total: int)

  function Pow2(n: nat): nat {
    if n == 0 then 1 else 2 * Pow2(n - 1)
  }

  /** Seconds to wait after an attempt. */
  function Backoff(retryAfter: Option<int>, attempt: nat): nat {
    if retryAfter.Some? && retryAfter.value > 0 then retryAfter.value else Pow2(attempt)
  }

  function Conclude<T>(r: Reply<T>): Outcome<T> {
    if r.NoResponse? || r.body.None? || r.status != 200 then Error else Fetched(r.body.value, r.total.GetOr(-1))
  }

  /** The seconds waited between the first n + 1 attempts. */
  ghost function Waited<T>(x: Exchange<T>, n: nat): nat
    requires forall k | 0 <= k < n :: x.reply(k).Response?
  {
    if n == 0 then 0 else Waited(x, n - 1) + Backoff(x.reply(n - 1).retryAfter, n - 1)
  }

  /** Attempt n is made and is the last: all before it were worth retrying, and it is not or may not be retried. */
  ghost predicate EndsAt<T>(x: Exchange<T>, n: nat) {
    && n <= MAX_RETRIES
    && (forall k | 0 <= k < n :: x.reply(k).Retryable() && !x.cancelled(k))
    && (x.reply(n).Retryable() ==> n == MAX_RETRIES || x.cancelled(n))
  }

  /** What the whole request comes to. */
  ghost function Result<T>(x: Exchange<T>, n: nat): Outcome<T> {
    if x.reply(n).Retryable() then Error else Conclude(x.reply(n))
  }

  lemma LastAttemptIsUnique<T>(x: Exchange<T>, n: nat, m: nat)
    requires EndsAt(x, n) && EndsAt(x, m)
    ensures n == m
  {
  }

  /** Without Retry-After the waits double: they add up to less than 2^MAX_RETRIES seconds. */
  lemma {:induction false} WaitsDouble<T>(x: Exchange<T>, n: nat)
    requires forall k | 0 <= k < n :: x.reply(k).Response? && !(x.reply(k).retryAfter.Some? && x.reply(k).retryAfter.value > 0)
    ensures Waited(x, n) == Pow2(n) - 1
    ensures n <= MAX_RETRIES ==> Waited(x, n) <= Pow2(MAX_RETRIES) - 1 == 31
  {
    if n > 0 {
      WaitsDouble(x, n - 1);
    }
    if n <= MAX_RETRIES {
      Pow2Grows(n, MAX_RETRIES);
      assert Pow2(4) == 16;
    }
  }

  lemma {:induction false} Pow2Grows(a: nat, b: nat)
    requires a <= b
    ensures Pow2(a) <= Pow2(b)
  {
    if a < b {
      Pow2Grows(a, b - 1);
    }
  }

  /** A positive Retry-After is waited out to the second; without one the waits are 1, 2, 4, 8 and 16 seconds. */
  lemma WaitsAsTold<T>(x: Exchange<T>, n: nat)
    requires forall k | 0 <= k <= n :: x.reply(k).Response?
    ensures x.reply(n).retryAfter.Some? && x.reply(n).retryAfter.value > 0 ==>
      Waited(x, n + 1) == Waited(x, n) + x.reply(n).retryAfter.value
    ensures n <= 4 && !(x.reply(n).retryAfter.Some? && x.reply(n).retryAfter.value > 0) ==>
      Waited(x, n + 1) == Waited(x, n) + [1, 2, 4, 8, 16][n]
  {
    assert Pow2(0) == 1 && Pow2(1) == 2 && Pow2(2) == 4 && Pow2(3) == 8 && Pow2(4) == 16;
  }

  /** A reply that asks to come back later. */
  ghost predicate AsksToRetry<T>(r: Reply<T>) {
    r.Response? && (r.status == 429 || 500 <= r.status)
  }

  method Request<T>(x: Exchange<T>) returns (outcome: Outcome<T>, ghost last: nat, ghost waited: nat)
    ensures EndsAt(x, last) && outcome == Result(x, last) && waited == Waited(x, last)
    ensures exists n: nat :: EndsAt(x, n) && outcome == Result(x, n)
    ensures last <= 5 && forall k | 0 <= k < last :: AsksToRetry(x.reply(k)) && !x.cancelled(k)
    ensures AsksToRetry(x.reply(last)) ==> outcome.Error? && (last == 5 || x.cancelled(last))
    ensures outcome.Fetched? <==> x.reply(last).Response? && x.reply(last).status == 200 && x.reply(last).body.Some?
    ensures outcome.Fetched? ==> x.reply(last).body == Some(outcome.body)
    ensures outcome.Fetched? ==> x.reply(last).total == Some(outcome.total) || (x.reply(last).total.None? && outcome.total == -1)
  {
    last, waited := 0, 0;
    var attempt: nat := 0;
    while true
      invariant attempt <= MAX_RETRIES && last == attempt
      invariant forall k | 0 <= k < attempt :: x.reply(k).Retryable() && !x.cancelled(k)
      invariant waited == Waited(x, attempt)
      decreases MAX_RETRIES - attempt
    {
      var r := x.reply(attempt);
      if r.NoResponse? {
        return Error, last, waited;
      }
      if r.status == 429 || r.status >= 500 {
        if attempt == MAX_RETRIES {
          return Error, last, waited;
        }
        var wait := Backoff(r.retryAfter, attempt);
        if x.cancelled(attempt) {
          return Error, last, waited;
        }
        waited := waited + wait;
        attempt := attempt + 1;
        last := attempt;
        continue;
      }
      if r.body.None? || r.status != 200 {
        return Error, last, waited;
      }
      return Fetched(r.body.value, r.total.GetOr(-1)), last, waited;
    }
  }

  // ---- collections

  function Min(a: int, b: int): int {
    if a < b then a else b
  }

  /** How much of a collection of n records the first p pages hold. */
  function Covered(n: nat, p: nat): nat {
    Min(PAGE_SIZE * p, n)
  }

  function PageOf<T>(all: seq<T>, page: nat): seq<T>
    requires page >= 1
  {
    all[Covered(|all|, page - 1)..Covered(|all|, page)]
  }

  /** How many requests a collection of n records takes. */
  function Needed(n: nat, known: bool): nat {
    if !known then n / PAGE_SIZE + 1 else if n == 0 then 1 else (n + PAGE_SIZE - 1) / PAGE_SIZE
  }

  ghost predicate Fails<T>(o: Outcome<T>) {
    o.Error? || o.body.NotArray?
  }

  /** A paged server: each page either fails or comes as the collection has it, with the total when that is known. */
  ghost predicate Serves<T(!new)>(pages: nat -> Exchange<T>, all: seq<T>, known: bool) {
    forall page: nat, n: nat | page >= 1 && EndsAt(pages(page), n) ::
      Fails(Result(pages(page), n)) || Result(pages(page), n) == Fetched(Array(PageOf(all, page)), if known then |all| else -1)
  }

  ghost predicate PageFails<T>(x: Exchange<T>) {
    exists n: nat :: EndsAt(x, n) && Fails(Result(x, n))
  }

  /** The loop goes on exactly while pages are missing; an unknown total costs a full last page one more request. */
  lemma StopsWhenNeeded(n: nat, known: bool, page: nat)
    requires page >= 1
    ensures page < Needed(n, known) <==>
      !(Covered(n, page) - Covered(n, page - 1) < PAGE_SIZE || (known && Covered(n, page) >= n))
    ensures page >= Needed(n, known) ==> Covered(n, page) == n
  {
  }

  /** Pages hold 100 records, the last one the rest; each record is on one page, in the order of the collection. */
  lemma PagesOfHundred<T>(all: seq<T>, i: nat)
    requires i < |all|
    ensures i % 100 < |PageOf(all, i / 100 + 1)| && PageOf(all, i / 100 + 1)[i % 100] == all[i]
    ensures |PageOf(all, i / 100 + 1)| == Min(100, |all| - i / 100 * 100)
  {
  }

  /** With the total known no request is wasted; without it, the last page must be seen to be short. */
  lemma RequestsNeeded(n: nat, known: bool, r: nat)
    requires r == Needed(n, known)
    ensures known && n > 0 ==> 100 * (r - 1) < n <= 100 * r
    ensures known && n == 0 ==> r == 1
    ensures !known ==> 100 * (r - 1) <= n < 100 * r
  {
  }

  /** The whole collection in order, or nothing when a page on the way fails. */
  method GetAll<T(!new)>(pages: nat -> Exchange<T>, ghost all: seq<T>, ghost known: bool) returns (result: Option<seq<T>>, ghost requests: nat)
    requires Serves(pages, all, known)
    ensures 1 <= requests <= Needed(|all|, known)
    ensures forall p: nat | 1 <= p < requests :: !PageFails(pages(p))
    ensures result.None? <==> PageFails(pages(requests))
    ensures result.Some? ==> result.value == all
    ensures result.Some? ==> requests == Needed(|all|, known)
    ensures result.None? <==> exists p: nat :: 1 <= p <= Needed(|all|, known) && PageFails(pages(p))
  {
    var got: seq<T> := [];
    requests := 0;
    var page: nat := 1;
    while true
      invariant requests == page - 1 && page <= Needed(|all|, known)
      invariant got == all[..Covered(|all|, requests)]
      invariant forall p: nat | 1 <= p < page :: !PageFails(pages(p))
      decreases Needed(|all|, known) - page
    {
      requests := page;
      StopsWhenNeeded(|all|, known, page);
      var o;
      ghost var last, waited;
      o, last, waited := Request(pages(page));
      if o.Error? || o.body.NotArray? {
        return None, requests;
      }
      SuccessIsNotFailure(pages(page), last);
      var records := o.body.records;
      got := got + records;
      if |records| < PAGE_SIZE || (o.total >= 0 && |got| >= o.total) {
        return Some(got), requests;
      }
      page := page + 1;
    }
  }

  lemma SuccessIsNotFailure<T>(x: Exchange<T>, n: nat)
    requires EndsAt(x, n) && !Fails(Result(x, n))
    ensures !PageFails(x)
  {
    forall m: nat | EndsAt(x, m)
      ensures !Fails(Result(x, m))
    {
      LastAttemptIsUnique(x, n, m);
    }
  }
}
