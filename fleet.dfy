/**
 * The provider-side view of a Hetzner Cloud project as the operator sees it:
 * servers in listing order, each with its creation instant and labels, and
 * the rules that decide which servers a purge sweep deletes.
 *
 * Instants are integers (UTC seconds). A server name is unique within the
 * project, so a server is identified by its name.
 */
module Fleet {
  import opened Wrappers

  type Labels = map<string, string>

  /** The label holding a server's own expiry instant. */
  const DeleteAfterLabel: string := "delete_after"

  /** A server as the provider lists it. */
  datatype Server = Server(
    name: string,
    created: int,          // assigned by the provider when the server is created
    serverType: string,
    image: string,
    sshKeys: set<string>,  // names of the SSH keys attached at creation
    labels: Labels)

  datatype SshKey = SshKey(publicKey: string, labels: Labels)

  /**
   * The value of a `delete_after` label once read as an ISO 8601 timestamp:
   * with an explicit offset (already converted to UTC), without one (the
   * wall-clock reading, no zone), or not a timestamp at all.
   */
  datatype Timestamp = Aware(instant: int) | Naive(instant: int) | Unparsable

  /** What the operator's calls raise, whether from its own code or from the provider. */
  datatype Error =
    | NameTaken(name: string)             // the provider refuses a second key or server with this name
    | ProvisioningFailed(name: string)    // the create action ended in an error state
    | MalformedSelector(selector: string) // the selector does not unpack into key and value
    | MalformedDeleteAfter(name: string)  // a selected server's delete_after is not a timestamp
    | NaiveDeleteAfter(name: string)      // comparing the aware clock with a naive delete_after

  function Names(s: seq<Server>): set<string>
  {
    set v | v in s :: v.name
  }

  /** The name of the server at position `i` of the listing. */
  function NameAt(s: seq<Server>, i: int): string
    requires 0 <= i < |s|
  {
    s[i].name
  }

  /** The provider never lists two servers under one name. */
  ghost predicate DistinctNames(s: seq<Server>)
  {
    forall i, j {:trigger NameAt(s, i), NameAt(s, j)} :: 0 <= i < j < |s| ==> NameAt(s, i) != NameAt(s, j)
  }

  lemma DistinctAt(s: seq<Server>, i: int)
    requires DistinctNames(s) && 0 <= i < |s|
    ensures s[i].name !in Names(s[..i]) && s[i].name !in Names(s[i + 1..])
  {
    forall v | v in s[..i] ensures v.name != s[i].name {
      var k :| 0 <= k < i && s[..i][k] == v;
      assert NameAt(s, k) != NameAt(s, i);
    }
    forall v | v in s[i + 1..] ensures v.name != s[i].name {
      var k :| 0 <= k < |s| - i - 1 && s[i + 1..][k] == v;
      assert NameAt(s, i) != NameAt(s, i + 1 + k);
    }
  }

  lemma NamesSubset(a: seq<Server>, b: seq<Server>)
    requires forall v :: v in a ==> v in b
    ensures Names(a) <= Names(b)
  {
    forall n | n in Names(a) ensures n in Names(b) {
      var v :| v in a && v.name == n;
      assert v in b;
    }
  }

  lemma DistinctCons(v: Server, s: seq<Server>)
    requires DistinctNames(s) && v.name !in Names(s)
    ensures DistinctNames([v] + s)
  {
    var t := [v] + s;
    forall i, j | 0 <= i < j < |t| ensures NameAt(t, i) != NameAt(t, j) {
      if i == 0 {
        assert t[j] in s;
      } else {
        assert NameAt(s, i - 1) != NameAt(s, j - 1);
      }
    }
  }

  lemma DistinctSnoc(s: seq<Server>, v: Server)
    requires DistinctNames(s) && v.name !in Names(s)
    ensures DistinctNames(s + [v])
  {
    var t := s + [v];
    forall i, j | 0 <= i < j < |t| ensures NameAt(t, i) != NameAt(t, j) {
      if j == |s| {
        assert t[i] in s;
      } else {
        assert NameAt(s, i) != NameAt(s, j);
      }
    }
  }

  // ---------------------------------------------------------------------
  // Deleting one server
  // ---------------------------------------------------------------------

  /** The listing once the server called `name` is gone; the rest keep their order. */
  function Without(s: seq<Server>, name: string): (r: seq<Server>)
    ensures forall v :: v in r <==> v in s && v.name != name
    ensures |r| <= |s|
  {
    if s == [] then []
    else
      assert s == [s[0]] + s[1..];
      if s[0].name == name then Without(s[1..], name)
      else [s[0]] + Without(s[1..], name)
  }

  /** Deleting a server removes exactly its name. */
  lemma {:induction false} WithoutNames(s: seq<Server>, name: string)
    ensures Names(Without(s, name)) == Names(s) - {name}
  {
    var r := Without(s, name);
    forall n | n in Names(s) - {name} ensures n in Names(r) {
      var v :| v in s && v.name == n;
      assert v in r;
    }
  }

  /** Deleting a name that is not listed changes nothing. */
  lemma {:induction false} WithoutAbsent(s: seq<Server>, name: string)
    requires name !in Names(s)
    ensures Without(s, name) == s
  {
    if s != [] {
      assert s[0] in s;
      assert Names(s[1..]) <= Names(s) by {
        forall n | n in Names(s[1..]) ensures n in Names(s) {
          var v :| v in s[1..] && v.name == n;
          assert v in s;
        }
      }
      WithoutAbsent(s[1..], name);
      assert [s[0]] + s[1..] == s;
    }
  }

  /** Deleting the same name twice is the same as deleting it once. */
  lemma {:induction false} WithoutIdempotent(s: seq<Server>, name: string)
    ensures Without(Without(s, name), name) == Without(s, name)
  {
    WithoutNames(s, name);
    WithoutAbsent(Without(s, name), name);
  }

  lemma {:induction false} WithoutAppend(a: seq<Server>, b: seq<Server>, name: string)
    ensures Without(a + b, name) == Without(a, name) + Without(b, name)
  {
    if a == [] {
      assert a + b == b;
    } else {
      assert (a + b)[0] == a[0];
      assert (a + b)[1..] == a[1..] + b;
      WithoutAppend(a[1..], b, name);
    }
  }

  /** Deleting a server whose name occurs nowhere else leaves the servers around it in place. */
  lemma WithoutSplit(a: seq<Server>, v: Server, b: seq<Server>)
    requires v.name !in Names(a) && v.name !in Names(b)
    ensures Without(a + [v] + b, v.name) == a + b
  {
    var n := v.name;
    WithoutAppend(a + [v], b, n);
    WithoutAppend(a, [v], n);
    WithoutAbsent(a, n);
    WithoutAbsent(b, n);
    assert Without([v], n) == [] by {
      assert [v][1..] == [];
    }
    assert Without(a + [v], n) == a;
  }

  /** Deleting keeps names unique, and removes exactly one server when the name is listed. */
  lemma {:induction false} WithoutDistinct(s: seq<Server>, name: string)
    requires DistinctNames(s)
    ensures DistinctNames(Without(s, name))
    ensures |Without(s, name)| == if name in Names(s) then |s| - 1 else |s|
  {
    if s == [] {
    } else {
      var rest := s[1..];
      assert DistinctNames(rest) by {
        forall i, j | 0 <= i < j < |rest| ensures NameAt(rest, i) != NameAt(rest, j) {
          assert NameAt(s, i + 1) != NameAt(s, j + 1);
        }
      }
      DistinctAt(s, 0);
      assert s[1..] == rest;
      WithoutDistinct(rest, name);
      WithoutNames(rest, name);
      assert Names(s) == {s[0].name} + Names(rest) by {
        assert s == [s[0]] + rest;
      }
      if s[0].name != name {
        DistinctCons(s[0], Without(rest, name));
      }
    }
  }

  // ---------------------------------------------------------------------
  // Age-based purge
  // ---------------------------------------------------------------------

  /**
   * The condition the age sweep deletes on: the cutoff `now - maxAge` lies
   * strictly after creation, that is, the server is strictly older than `maxAge`.
   */
  predicate PastMaxAge(vm: Server, now: int, maxAge: int): (r: bool)
    ensures r <==> now - vm.created > maxAge
  {
    now - maxAge > vm.created
  }

  /**
   * The listing after an age sweep at instant `now`: the servers are visited
   * in listing order and every one past the maximum age is deleted, whatever
   * its labels.
   */
  function AfterAgePurge(s: seq<Server>, now: int, maxAge: int): (r: seq<Server>)
    ensures |r| <= |s|
  {
    if s == [] then []
    else
      var last := s[|s| - 1];
      AfterAgePurge(s[..|s| - 1], now, maxAge) + (if PastMaxAge(last, now, maxAge) then [] else [last])
  }

  /**
   * The servers left by an age sweep are exactly the listed ones created at
   * or after the cutoff `now - maxAge`; labels play no part.
   */
  lemma {:induction false} AgePurgeSurvivors(s: seq<Server>, now: int, maxAge: int)
    ensures forall v :: v in AfterAgePurge(s, now, maxAge) <==> v in s && v.created >= now - maxAge
  {
    if s != [] {
      var init, last := s[..|s| - 1], s[|s| - 1];
      AgePurgeSurvivors(init, now, maxAge);
      assert s == init + [last];
    }
  }

  /** One step of the age sweep over a listing with unique names, the first `i` servers done. */
  lemma AgePurgeStep(all: seq<Server>, i: nat, now: int, maxAge: int)
    requires DistinctNames(all) && i < |all|
    ensures var before := AfterAgePurge(all[..i], now, maxAge) + all[i..];
            var after := AfterAgePurge(all[..i + 1], now, maxAge) + all[i + 1..];
            if PastMaxAge(all[i], now, maxAge) then Without(before, all[i].name) == after else before == after
  {
    var vm := all[i];
    var done := AfterAgePurge(all[..i], now, maxAge);
    var next := all[..i + 1];
    assert next[..|next| - 1] == all[..i] && next[|next| - 1] == vm;
    assert all[i..] == [vm] + all[i + 1..];
    assert done + [vm] + all[i + 1..] == done + all[i..];
    if PastMaxAge(vm, now, maxAge) {
      assert AfterAgePurge(next, now, maxAge) == done;
      AgePurgeSurvivors(all[..i], now, maxAge);
      DistinctAt(all, i);
      NamesSubset(done, all[..i]);
      WithoutSplit(done, vm, all[i + 1..]);
    } else {
      assert AfterAgePurge(next, now, maxAge) == done + [vm];
    }
  }

  /** A server created exactly at the cutoff survives; one created a second earlier does not. */
  lemma AgePurgeBoundary(s: seq<Server>, v: Server, now: int, maxAge: int)
    requires v in s
    ensures v.created == now - maxAge ==> v in AfterAgePurge(s, now, maxAge)
    ensures v.created == now - maxAge - 1 ==> v !in AfterAgePurge(s, now, maxAge)
  {
    AgePurgeSurvivors(s, now, maxAge);
  }

  /** A second sweep at the same instant deletes nothing more. */
  lemma {:induction false} AgePurgeIdempotent(s: seq<Server>, now: int, maxAge: int)
    ensures AfterAgePurge(AfterAgePurge(s, now, maxAge), now, maxAge) == AfterAgePurge(s, now, maxAge)
  {
    if s != [] {
      var init, last := s[..|s| - 1], s[|s| - 1];
      var p := AfterAgePurge(init, now, maxAge);
      AgePurgeIdempotent(init, now, maxAge);
      assert AfterAgePurge(p, now, maxAge) == p;
      if PastMaxAge(last, now, maxAge) {
        assert AfterAgePurge(s, now, maxAge) == p;
      } else {
        var q := p + [last];
        assert AfterAgePurge(s, now, maxAge) == q;
        assert q[..|q| - 1] == p && q[|q| - 1] == last;
        assert AfterAgePurge(q, now, maxAge) == AfterAgePurge(p, now, maxAge) + [last];
      }
    }
  }

  // ---------------------------------------------------------------------
  // Label-expiry purge
  // ---------------------------------------------------------------------

  /**
   * What one expiry sweep is told: the selector's key and value, the
   * instant it runs at, how a `delete_after` value reads as a timestamp,
   * and whether a naive timestamp is read as UTC (`false` is the operator
   * as written: the naive value stays naive).
   */
  datatype ExpiryRule = ExpiryRule(
    key: string,
    value: string,
    now: int,
    parse: string -> Timestamp,
    naiveAsUtc: bool)

  /** What the sweep does with one server it visits. */
  datatype Verdict = Retain | Expire | Abort(error: Error)

  /** The server carries the selector's key with the selector's value. */
  predicate Selected(vm: Server, key: string, value: string): (r: bool)
    ensures r <==> (key, value) in vm.labels.Items
  {
    key in vm.labels && vm.labels[key] == value
  }

  /**
   * What the sweep does with one server: an unselected server, or one without
   * a `delete_after`, is kept; a value that is not a timestamp, or (as written)
   * a naive one, is an error naming the server; otherwise the server expires
   * exactly when the sweep's instant is strictly past its `delete_after`.
   */
  function ExpiryVerdict(vm: Server, rule: ExpiryRule): (r: Verdict)
    ensures !Selected(vm, rule.key, rule.value) || DeleteAfterLabel !in vm.labels ==> r == Retain
    ensures Selected(vm, rule.key, rule.value) && DeleteAfterLabel in vm.labels ==>
              var d := rule.parse(vm.labels[DeleteAfterLabel]);
              && (r.Abort? <==> d.Unparsable? || (d.Naive? && !rule.naiveAsUtc))
              && (d.Unparsable? ==> r == Abort(MalformedDeleteAfter(vm.name)))
              && (d.Naive? && !rule.naiveAsUtc ==> r == Abort(NaiveDeleteAfter(vm.name)))
              && (!r.Abort? ==> (r == Expire <==> rule.now > d.instant))
  {
    if !Selected(vm, rule.key, rule.value) || DeleteAfterLabel !in vm.labels then Retain
    else
      match rule.parse(vm.labels[DeleteAfterLabel])
      case Unparsable => Abort(MalformedDeleteAfter(vm.name))
      case Naive(t) =>
        if !rule.naiveAsUtc then Abort(NaiveDeleteAfter(vm.name))
        else if rule.now > t then Expire else Retain
      case Aware(t) => if rule.now > t then Expire else Retain
  }

  /** The listing after a sweep, and whether the sweep ran to the end. */
  datatype SweepResult = SweepResult(survivors: seq<Server>, outcome: Outcome<Error>)

  /**
   * The expiry sweep over the listing `s`, in listing order. A server whose
   * verdict is an error stops the sweep: the deletions before it stand and
   * it and every later server are left as they are.
   */
  function ExpirySweep(s: seq<Server>, rule: ExpiryRule): (r: SweepResult)
    ensures |r.survivors| <= |s|
  {
    if s == [] then SweepResult([], Pass)
    else
      var last := s[|s| - 1];
      var prev := ExpirySweep(s[..|s| - 1], rule);
      if prev.outcome.Fail? then SweepResult(prev.survivors + [last], prev.outcome)
      else
        match ExpiryVerdict(last, rule)
        case Retain => SweepResult(prev.survivors + [last], Pass)
        case Expire => prev
        case Abort(e) => SweepResult(prev.survivors + [last], Fail(e))
  }

  /** The sweep deletes only servers whose verdict is to expire them. */
  lemma {:induction false} SweepDeletesOnlyExpired(s: seq<Server>, rule: ExpiryRule)
    ensures forall v :: v in ExpirySweep(s, rule).survivors ==> v in s
    ensures forall v :: v in s && ExpiryVerdict(v, rule) != Expire ==> v in ExpirySweep(s, rule).survivors
  {
    if s != [] {
      var init, last := s[..|s| - 1], s[|s| - 1];
      SweepDeletesOnlyExpired(init, rule);
      assert s == init + [last];
    }
  }

  /**
   * One step of the expiry sweep over a listing with unique names, the first
   * `i` servers done without failure, when the verdict on the next is not an error.
   */
  lemma SweepStep(all: seq<Server>, i: nat, rule: ExpiryRule)
    requires DistinctNames(all) && i < |all|
    requires ExpirySweep(all[..i], rule).outcome == Pass
    requires !ExpiryVerdict(all[i], rule).Abort?
    ensures ExpirySweep(all[..i + 1], rule).outcome == Pass
    ensures var before := ExpirySweep(all[..i], rule).survivors + all[i..];
            var after := ExpirySweep(all[..i + 1], rule).survivors + all[i + 1..];
            if ExpiryVerdict(all[i], rule) == Expire then Without(before, all[i].name) == after
            else before == after
  {
    var vm := all[i];
    var done := ExpirySweep(all[..i], rule).survivors;
    var next := all[..i + 1];
    assert next[..|next| - 1] == all[..i] && next[|next| - 1] == vm;
    assert all[i..] == [vm] + all[i + 1..];
    assert done + [vm] + all[i + 1..] == done + all[i..];
    if ExpiryVerdict(vm, rule) == Expire {
      assert ExpirySweep(next, rule).survivors == done;
      SweepDeletesOnlyExpired(all[..i], rule);
      DistinctAt(all, i);
      NamesSubset(done, all[..i]);
      WithoutSplit(done, vm, all[i + 1..]);
    } else {
      assert ExpirySweep(next, rule).survivors == done + [vm];
    }
  }

  /** A sweep that ran to the end has deleted every server whose verdict is to expire it. */
  lemma {:induction false} CompletedSweepSurvivors(s: seq<Server>, rule: ExpiryRule)
    requires ExpirySweep(s, rule).outcome == Pass
    ensures forall v :: v in ExpirySweep(s, rule).survivors <==> v in s && ExpiryVerdict(v, rule) != Expire
  {
    SweepDeletesOnlyExpired(s, rule);
    if s != [] {
      var init, last := s[..|s| - 1], s[|s| - 1];
      CompletedSweepSurvivors(init, rule);
      assert s == init + [last];
    }
  }

  /** The sweep fails exactly when some listed server's verdict is an error. */
  lemma {:induction false} SweepFailsIffSomeAbort(s: seq<Server>, rule: ExpiryRule)
    ensures ExpirySweep(s, rule).outcome.Fail? <==>
            exists j :: 0 <= j < |s| && ExpiryVerdict(s[j], rule).Abort?
  {
    if s != [] {
      var init, last := s[..|s| - 1], s[|s| - 1];
      SweepFailsIffSomeAbort(init, rule);
      if ExpirySweep(init, rule).outcome.Fail? {
        var j :| 0 <= j < |init| && ExpiryVerdict(init[j], rule).Abort?;
        assert s[j] == init[j];
      } else {
        forall j | 0 <= j < |s| - 1 ensures !ExpiryVerdict(s[j], rule).Abort? {
          assert s[j] == init[j];
        }
      }
    }
  }

  /** Once failed, the sweep leaves every later server listed. */
  lemma {:induction false} SweepStaysFailed(p: seq<Server>, q: seq<Server>, rule: ExpiryRule)
    requires ExpirySweep(p, rule).outcome.Fail?
    ensures ExpirySweep(p + q, rule) == SweepResult(ExpirySweep(p, rule).survivors + q, ExpirySweep(p, rule).outcome)
  {
    if q == [] {
      assert p + q == p;
    } else {
      var init, last := q[..|q| - 1], q[|q| - 1];
      SweepStaysFailed(p, init, rule);
      var t := p + q;
      assert t[..|t| - 1] == p + init && t[|t| - 1] == last;
      assert ExpirySweep(p, rule).survivors + init + [last] == ExpirySweep(p, rule).survivors + q;
    }
  }

  /**
   * The first server whose verdict is an error ends the sweep: the sweep
   * fails with that error, the servers before it have been swept, and it and
   * all later servers are still listed, in order.
   */
  lemma SweepStopsAtFirstAbort(s: seq<Server>, rule: ExpiryRule, k: nat)
    requires k < |s|
    requires ExpirySweep(s[..k], rule).outcome == Pass
    requires ExpiryVerdict(s[k], rule).Abort?
    ensures ExpirySweep(s, rule) ==
            SweepResult(ExpirySweep(s[..k], rule).survivors + s[k..], Fail(ExpiryVerdict(s[k], rule).error))
  {
    var head, tail := s[..k + 1], s[k + 1..];
    var done := ExpirySweep(s[..k], rule).survivors;
    assert head[..|head| - 1] == s[..k] && head[|head| - 1] == s[k];
    assert ExpirySweep(head, rule) == SweepResult(done + [s[k]], Fail(ExpiryVerdict(s[k], rule).error));
    SweepStaysFailed(head, tail, rule);
    assert head + tail == s;
    assert done + [s[k]] + tail == done + s[k..];
  }

  /** The selector is a safety boundary: a server without the selector's label is never deleted. */
  lemma {:induction false} SweepSparesUnselected(s: seq<Server>, rule: ExpiryRule, v: Server)
    requires v in s && !Selected(v, rule.key, rule.value)
    ensures v in ExpirySweep(s, rule).survivors
  {
    SweepDeletesOnlyExpired(s, rule);
  }

  /** A selected server without a `delete_after` label is never deleted. */
  lemma {:induction false} SweepSparesMissingDeleteAfter(s: seq<Server>, rule: ExpiryRule, v: Server)
    requires v in s && DeleteAfterLabel !in v.labels
    ensures v in ExpirySweep(s, rule).survivors
  {
    SweepDeletesOnlyExpired(s, rule);
  }

  /**
   * A server judged expired stays deleted, whatever the sweep meets after
   * it: a later failure leaves only the servers from the failing one on.
   */
  lemma {:induction false} ExpiredServerStaysDeleted(s: seq<Server>, rule: ExpiryRule, k: nat)
    requires k < |s| && s[k] !in s[..k] && s[k] !in s[k + 1..]
    requires ExpirySweep(s[..k], rule).outcome == Pass && ExpiryVerdict(s[k], rule) == Expire
    ensures s[k] !in ExpirySweep(s, rule).survivors
    decreases |s|
  {
    var init := s[..|s| - 1];
    if |s| == k + 1 {
      assert init == s[..k];
      SweepDeletesOnlyExpired(init, rule);
    } else {
      assert init[..k] == s[..k] && init[k] == s[k];
      assert s[k + 1..] == init[k + 1..] + [s[|s| - 1]];
      ExpiredServerStaysDeleted(init, rule, k);
    }
  }

  /**
   * A selected server whose `delete_after` carries a zone is deleted exactly
   * when the sweep's instant is strictly past it and the sweep reaches it.
   */
  lemma SweepExpiresAwareStrictly(s: seq<Server>, rule: ExpiryRule, k: nat, t: int)
    requires DistinctNames(s) && k < |s|
    requires Selected(s[k], rule.key, rule.value) && DeleteAfterLabel in s[k].labels
    requires rule.parse(s[k].labels[DeleteAfterLabel]) == Aware(t)
    ensures rule.now <= t ==> s[k] in ExpirySweep(s, rule).survivors
    ensures ExpirySweep(s[..k], rule).outcome == Pass && rule.now > t ==> s[k] !in ExpirySweep(s, rule).survivors
  {
    SweepDeletesOnlyExpired(s, rule);
    if ExpirySweep(s[..k], rule).outcome == Pass && rule.now > t {
      DistinctAt(s, k);
      ExpiredServerStaysDeleted(s, rule, k);
    }
  }

  /**
   * As written, a selected server with a naive `delete_after` fails the sweep
   * when reached: the sweep reports the failed comparison and the server, and
   * every one after it, is left listed.
   */
  lemma NaiveDeleteAfterStopsSweep(s: seq<Server>, rule: ExpiryRule, k: nat, t: int)
    requires !rule.naiveAsUtc
    requires k < |s| && ExpirySweep(s[..k], rule).outcome == Pass
    requires Selected(s[k], rule.key, rule.value) && DeleteAfterLabel in s[k].labels
    requires rule.parse(s[k].labels[DeleteAfterLabel]) == Naive(t)
    ensures ExpirySweep(s, rule).outcome == Fail(NaiveDeleteAfter(s[k].name))
    ensures ExpirySweep(s, rule).survivors == ExpirySweep(s[..k], rule).survivors + s[k..]
  {
    SweepStopsAtFirstAbort(s, rule, k);
  }

  /**
   * Read as UTC, a naive `delete_after` is handled like an aware one: the
   * sweep can then fail only on a value that is not a timestamp.
   */
  lemma {:induction false} UtcSweepFailsOnlyOnMalformed(s: seq<Server>, rule: ExpiryRule)
    requires rule.naiveAsUtc
    ensures ExpirySweep(s, rule).outcome.Fail? ==> ExpirySweep(s, rule).outcome.error.MalformedDeleteAfter?
  {
    if s != [] {
      UtcSweepFailsOnlyOnMalformed(s[..|s| - 1], rule);
    }
  }

  /**
   * Read as UTC, a selected server with a naive `delete_after` is deleted
   * exactly when the sweep's instant is strictly past it and the sweep
   * reaches it.
   */
  lemma UtcSweepExpiresNaiveStrictly(s: seq<Server>, rule: ExpiryRule, k: nat, t: int)
    requires rule.naiveAsUtc
    requires DistinctNames(s) && k < |s|
    requires Selected(s[k], rule.key, rule.value) && DeleteAfterLabel in s[k].labels
    requires rule.parse(s[k].labels[DeleteAfterLabel]) == Naive(t)
    ensures rule.now <= t ==> s[k] in ExpirySweep(s, rule).survivors
    ensures ExpirySweep(s[..k], rule).outcome == Pass && rule.now > t ==> s[k] !in ExpirySweep(s, rule).survivors
  {
    SweepDeletesOnlyExpired(s, rule);
    if ExpirySweep(s[..k], rule).outcome == Pass && rule.now > t {
      DistinctAt(s, k);
      ExpiredServerStaysDeleted(s, rule, k);
    }
  }

  /**
   * One selected server whose naive `delete_after` (2020-01-01T00:00:00) is
   * long past: as written the sweep fails and the server stays; read as UTC
   * it is deleted and the sweep completes.
   */
  lemma NaiveExpiredServerSurvives()
    ensures var vm := Server("scan-1", 0, "cx11", "ubuntu-22.04", {},
                             map["purpose" := "masscan", DeleteAfterLabel := "2020-01-01T00:00:00"]);
            var parse := (x: string) => if x == "2020-01-01T00:00:00" then Naive(1577836800) else Unparsable;
            var asWritten := ExpiryRule("purpose", "masscan", 1700000000, parse, false);
            var asUtc := ExpiryRule("purpose", "masscan", 1700000000, parse, true);
            && ExpirySweep([vm], asWritten) == SweepResult([vm], Fail(NaiveDeleteAfter("scan-1")))
            && ExpirySweep([vm], asUtc) == SweepResult([], Pass)
  {
    var vm := Server("scan-1", 0, "cx11", "ubuntu-22.04", {},
                     map["purpose" := "masscan", DeleteAfterLabel := "2020-01-01T00:00:00"]);
    assert [vm][..0] == [];
  }
}
