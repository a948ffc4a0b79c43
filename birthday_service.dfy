/**
 * The campaign runner `checkAndSendBirthdayEmails`: it asks the matcher for today's rows,
 * rejects on a read error, resolves `{sent: 0, failed: 0}` (no `total` field) when nobody
 * matches, and otherwise sends one birthday email per matched user, waits for all of them
 * with `Promise.all` and resolves the counts of successes and failures with `total`.
 * The concurrent sends are a sequence of transport results, one per matched user.
 */
module BirthdayService {
  import opened Wrappers
  import opened UserModel
  import opened EmailService

  /** A settled promise: fulfilled with a value, or rejected with an error message. */
  datatype Settled<+T> = Resolved(value: T) | Rejected(reason: string)

  /**
   * `Promise.all`: fulfilled with every value, in order, when every promise is fulfilled;
   * otherwise rejected with the reason of a rejected promise (here the first in order).
   */
  function PromiseAll<T>(ps: seq<Settled<T>>): (r: Settled<seq<T>>)
    ensures r.Resolved? <==> forall i :: 0 <= i < |ps| ==> ps[i].Resolved?
    ensures r.Resolved? ==> |r.value| == |ps| && forall i :: 0 <= i < |ps| ==> r.value[i] == ps[i].value
    ensures r.Rejected? ==> exists i :: 0 <= i < |ps| && ps[i] == Rejected(r.reason)
  {
    if ps == [] then Resolved([])
    else
      match ps[0]
      case Rejected(e) => Rejected(e)
      case Resolved(v) =>
        match PromiseAll(ps[1..])
        case Rejected(e) =>
          assert exists i :: 0 <= i < |ps[1..]| && ps[1..][i] == Rejected(e);
          var i :| 0 <= i < |ps[1..]| && ps[1..][i] == Rejected(e);
          assert ps[i + 1] == Rejected(e);
          Rejected(e)
        case Resolved(vs) => Resolved([v] + vs)
  }

  /** The number of elements of `s` that satisfy `p`: `s.filter(p).length`. */
  function CountIf<T>(s: seq<T>, p: T -> bool): (n: nat)
    ensures n <= |s|
  {
    if s == [] then 0 else (if p(s[0]) then 1 else 0) + CountIf(s[1..], p)
  }

  lemma {:induction false} CountIfAppend<T>(s: seq<T>, t: seq<T>, p: T -> bool)
    ensures CountIf(s + t, p) == CountIf(s, p) + CountIf(t, p)
  {
    if s == [] {
      assert s + t == t;
    } else {
      assert (s + t)[0] == s[0] && (s + t)[1..] == s[1..] + t;
      CountIfAppend(s[1..], t, p);
    }
  }

  /** Every element satisfies `p` or its negation, never both: the two counts add up to the length. */
  lemma {:induction false} CountIfComplement<T>(s: seq<T>, p: T -> bool, q: T -> bool)
    requires forall x :: q(x) == !p(x)
    ensures CountIf(s, p) + CountIf(s, q) == |s|
  {
    if s != [] {
      CountIfComplement(s[1..], p, q);
    }
  }

  /** Counting does not depend on order: a permutation has the same count. */
  lemma {:induction false} CountIfPermutation<T>(s: seq<T>, t: seq<T>, p: T -> bool)
    requires multiset(s) == multiset(t)
    ensures CountIf(s, p) == CountIf(t, p)
  {
    if s == [] {
      assert |t| == |multiset(t)| == 0;
    } else {
      var x := s[0];
      assert x in multiset(t);
      var j :| 0 <= j < |t| && t[j] == x;
      var t' := t[..j] + t[j + 1..];
      RemoveAtMultiset(s, t, j);
      CountIfPermutation(s[1..], t', p);
      CountIfRemoveAt(t, j, p);
    }
  }

  lemma RemoveAtMultiset<T>(s: seq<T>, t: seq<T>, j: nat)
    requires multiset(s) == multiset(t) && s != [] && j < |t| && t[j] == s[0]
    ensures multiset(s[1..]) == multiset(t[..j] + t[j + 1..])
  {
    assert t == t[..j] + [t[j]] + t[j + 1..];
    assert s == [s[0]] + s[1..];
    var a, b := multiset(s[1..]), multiset(t[..j] + t[j + 1..]);
    assert multiset(s) == multiset{s[0]} + a;
    assert multiset(t) == multiset{s[0]} + b;
    forall y ensures a[y] == b[y] {
      assert multiset(s)[y] == multiset(t)[y];
    }
    assert a == b;
  }

  lemma CountIfRemoveAt<T>(t: seq<T>, j: nat, p: T -> bool)
    requires j < |t|
    ensures CountIf(t, p) == (if p(t[j]) then 1 else 0) + CountIf(t[..j] + t[j + 1..], p)
  {
    var u, x, w := t[..j], t[j], t[j + 1..];
    assert t == u + ([x] + w);
    assert ([x] + w)[0] == x && ([x] + w)[1..] == w;
    assert CountIf([x] + w, p) == (if p(x) then 1 else 0) + CountIf(w, p);
    CountIfAppend(u, [x] + w, p);
    CountIfAppend(u, w, p);
  }

  /** Counting elementwise-corresponding sequences with corresponding predicates gives the same number. */
  lemma {:induction false} CountIfCorresponding<T, U>(s: seq<T>, p: T -> bool, t: seq<U>, q: U -> bool)
    requires |s| == |t|
    requires forall i :: 0 <= i < |s| ==> p(s[i]) == q(t[i])
    ensures CountIf(s, p) == CountIf(t, q)
  {
    if s != [] {
      assert p(s[0]) == q(t[0]);
      CountIfCorresponding(s[1..], p, t[1..], q);
    }
  }

  predicate IsSuccess(r: SendOutcome) { r.Success() }
  predicate IsFailure(r: SendOutcome) { !r.Success() }
  predicate Delivered(t: TransportResult) { t.Success? }
  predicate Undelivered(t: TransportResult) { t.Failure? }

  /** The resolved summary; `total` is absent on the no-birthday path. */
  datatype Summary = Summary(sent: nat, failed: nat, total: Option<nat>)

  /** One campaign run: every message given to the transport, and how the returned promise settles. */
  datatype Run = Run(transportCalls: seq<MailOptions>, result: Result<Summary, string>)

  /** `users.map(user => sendBirthdayEmail(user.email, user.username))`, with the i-th transport result for the i-th user. */
  function Dispatches(sender: string, users: seq<User>, transport: seq<TransportResult>): (ds: seq<Dispatch>)
    requires |transport| == |users|
    ensures |ds| == |users|
    ensures forall i :: 0 <= i < |users| ==>
      ds[i] == SendBirthdayEmail(sender, users[i].email, users[i].username, transport[i])
  {
    seq(|users|, i requires 0 <= i < |users| => SendBirthdayEmail(sender, users[i].email, users[i].username, transport[i]))
  }

  /** The promises the dispatches return: `sendBirthdayEmail` catches the transport's error and reads its message, so each one is fulfilled. */
  function Promises(ds: seq<Dispatch>): (ps: seq<Settled<SendOutcome>>)
    ensures |ps| == |ds|
    ensures forall i :: 0 <= i < |ds| ==> ps[i] == Resolved(ds[i].outcome)
  {
    if ds == [] then [] else [Resolved(ds[0].outcome)] + Promises(ds[1..])
  }

  /**
   * What `Promise.all` makes of the dispatches' promises: it is fulfilled, never rejected,
   * with the outcome of every dispatch in dispatch order.
   */
  lemma {:induction false} PromisesAllFulfilled(ds: seq<Dispatch>)
    ensures PromiseAll(Promises(ds)) == Resolved(seq(|ds|, i requires 0 <= i < |ds| => ds[i].outcome))
  {
    var outcomes := seq(|ds|, i requires 0 <= i < |ds| => ds[i].outcome);
    var r := PromiseAll(Promises(ds));
    assert r.Resolved?;
    assert |r.value| == |outcomes|;
    assert forall i :: 0 <= i < |ds| ==> r.value[i] == outcomes[i];
    assert r.value == outcomes;
  }

  /** All messages given to the transport by a sequence of dispatches, in order. */
  function TransportCalls(ds: seq<Dispatch>): seq<MailOptions>
  {
    if ds == [] then [] else ds[0].transportCalls + TransportCalls(ds[1..])
  }

  /** Dispatches that each send one message give one message per dispatch, in the same order. */
  lemma {:induction false} TransportCallsOnePerDispatch(ds: seq<Dispatch>)
    requires forall i :: 0 <= i < |ds| ==> |ds[i].transportCalls| == 1
    ensures |TransportCalls(ds)| == |ds|
    ensures forall i :: 0 <= i < |ds| ==> TransportCalls(ds)[i] == ds[i].transportCalls[0]
  {
    if ds != [] {
      TransportCallsOnePerDispatch(ds[1..]);
      assert TransportCalls(ds) == [ds[0].transportCalls[0]] + TransportCalls(ds[1..]);
    }
  }

  /**
   * The callback of the matcher query once it delivered `users`: nothing is sent for no users;
   * otherwise one message per user, in order, and the counts of the transport's deliveries
   * and failures with the number of users.
   */
  function SendToMatched(sender: string, users: seq<User>, transport: seq<TransportResult>): (run: Run)
    requires |transport| == |users|
    ensures |run.transportCalls| == |users|
    ensures forall i :: 0 <= i < |users| ==>
      run.transportCalls[i] == MailOptions(sender, users[i].email, Subject(users[i].username), BirthdayEmailHtml(users[i].username))
    ensures users == [] ==> run.result == Success(Summary(0, 0, None))
    ensures users != [] ==>
      run.result == Success(Summary(CountIf(transport, Delivered), CountIf(transport, Undelivered), Some(|users|)))
  {
    if |users| == 0 then Run([], Success(Summary(0, 0, None)))
    else
      var ds := Dispatches(sender, users, transport);
      var calls := TransportCalls(ds);
      TransportCallsOnePerDispatch(ds);
      match PromiseAll(Promises(ds))
      case Rejected(e) =>
        assert false;
        Run(calls, Failure(e))
      case Resolved(results) =>
        CountIfCorresponding(results, IsSuccess, transport, Delivered);
        CountIfCorresponding(results, IsFailure, transport, Undelivered);
        Run(calls, Success(Summary(CountIf(results, IsSuccess), CountIf(results, IsFailure), Some(|users|))))
  }

  /** The precondition the transport oracle must meet: one result per matched user. */
  predicate OneResultPerMatch(month: nat, day: nat, table: Result<seq<User>, string>, transport: seq<TransportResult>)
    requires 1 <= month <= 12 && 1 <= day <= 31
  {
    var matched := GetTodayBirthdays(month, day, table);
    matched.Success? ==> |transport| == |matched.value|
  }

  /**
   * `checkAndSendBirthdayEmails()` on the day `month`/`day`, with `table` the outcome of reading
   * the users table, `sender` the configured sender and `transport[i]` what the transport
   * reports for the i-th matched user. A read error rejects with that error and sends nothing;
   * nothing else rejects the run, so a failed send never does.
   */
  function CheckAndSendBirthdayEmails(month: nat, day: nat, table: Result<seq<User>, string>,
                                      sender: string, transport: seq<TransportResult>): (run: Run)
    requires 1 <= month <= 12 && 1 <= day <= 31
    requires OneResultPerMatch(month, day, table, transport)
    ensures table.Failure? ==> run == Run([], Failure(table.error))
    ensures run.result.Failure? <==> table.Failure?
    ensures table.Success? ==> run == SendToMatched(sender, GetTodayBirthdays(month, day, table).value, transport)
  {
    match GetTodayBirthdays(month, day, table)
    case Failure(e) => Run([], Failure(e))
    case Success(users) => SendToMatched(sender, users, transport)
  }

  /** Every resolved summary with a total accounts for every matched user: sent + failed == total. */
  lemma SummaryAddsUp(month: nat, day: nat, table: Result<seq<User>, string>, sender: string, transport: seq<TransportResult>)
    requires 1 <= month <= 12 && 1 <= day <= 31
    requires OneResultPerMatch(month, day, table, transport)
    ensures var run := CheckAndSendBirthdayEmails(month, day, table, sender, transport);
      run.result.Success? ==>
        var summary := run.result.value;
        summary.sent + summary.failed == (if summary.total.Some? then summary.total.value else 0)
  {
    CountIfComplement(transport, Delivered, Undelivered);
  }

  /** When every send fails the run still resolves, with nothing sent and every matched user failed. */
  lemma AllSendsFail(month: nat, day: nat, table: Result<seq<User>, string>, sender: string, transport: seq<TransportResult>)
    requires 1 <= month <= 12 && 1 <= day <= 31
    requires OneResultPerMatch(month, day, table, transport)
    requires table.Success? && GetTodayBirthdays(month, day, table).value != []
    requires forall i :: 0 <= i < |transport| ==> transport[i].Failure?
    ensures CheckAndSendBirthdayEmails(month, day, table, sender, transport).result ==
      Success(Summary(0, |transport|, Some(|transport|)))
  {
    var none := seq(|transport|, _ => false);
    CountIfCorresponding(transport, Delivered, none, (b: bool) => b);
    CountIfCorresponding(transport, Undelivered, transport, (t: TransportResult) => true);
    CountIfAll(transport);
    CountIfNone(none);
  }

  lemma {:induction false} CountIfAll(s: seq<TransportResult>)
    ensures CountIf(s, (t: TransportResult) => true) == |s|
  {
    if s != [] {
      CountIfAll(s[1..]);
    }
  }

  lemma {:induction false} CountIfNone(s: seq<bool>)
    requires forall i :: 0 <= i < |s| ==> !s[i]
    ensures CountIf(s, (b: bool) => b) == 0
  {
    if s != [] {
      CountIfNone(s[1..]);
    }
  }

  /** The summary does not depend on the order in which the sends complete. */
  lemma SummaryOrderIndependent(results: seq<SendOutcome>, reordered: seq<SendOutcome>)
    requires multiset(results) == multiset(reordered)
    ensures CountIf(results, IsSuccess) == CountIf(reordered, IsSuccess)
    ensures CountIf(results, IsFailure) == CountIf(reordered, IsFailure)
  {
    CountIfPermutation(results, reordered, IsSuccess);
    CountIfPermutation(results, reordered, IsFailure);
  }

  /** One recipient's failed delivery leaves the other recipients' outcomes as their transport reported them. */
  lemma FailureIsLocal(month: nat, day: nat, table: Result<seq<User>, string>, sender: string,
                       transport: seq<TransportResult>, k: nat, message: string)
    requires 1 <= month <= 12 && 1 <= day <= 31
    requires OneResultPerMatch(month, day, table, transport)
    requires table.Success? && k < |transport|
    ensures var failedOne := transport[k := Failure(message)];
      var before := CheckAndSendBirthdayEmails(month, day, table, sender, transport);
      var after := CheckAndSendBirthdayEmails(month, day, table, sender, failedOne);
      && after.result.Success?
      && after.transportCalls == before.transportCalls
      && after.result.value.sent == before.result.value.sent - (if transport[k].Success? then 1 else 0)
  {
    var failedOne := transport[k := Failure(message)];
    assert transport == transport[..k] + [transport[k]] + transport[k + 1..];
    assert failedOne == transport[..k] + [Failure(message)] + transport[k + 1..];
    CountIfAppend(transport[..k] + [transport[k]], transport[k + 1..], Delivered);
    CountIfAppend(transport[..k], [transport[k]], Delivered);
    CountIfAppend(transport[..k] + [Failure(message)], transport[k + 1..], Delivered);
    CountIfAppend(transport[..k], [Failure(message)], Delivered);
    var before := CheckAndSendBirthdayEmails(month, day, table, sender, transport);
    var after := CheckAndSendBirthdayEmails(month, day, table, sender, failedOne);
    assert |before.transportCalls| == |after.transportCalls|;
  }
}
