/** The accumulation pattern both aggregators share: a fixed list of checks,
    each with its own message, run in order, with the message of every failing
    check appended to an initially empty error list. */
module ErrorList {

  /** One check of an aggregator: whether it passed, and the message it adds
      to the error list when it did not. */
  datatype Check = Check(passed: bool, message: string)

  /** The messages of the checks, in check order. */
  function Messages(checks: seq<Check>): (r: seq<string>)
    ensures |r| == |checks|
    ensures forall k :: 0 <= k < |checks| ==> r[k] == checks[k].message
  {
    seq(|checks|, k requires 0 <= k < |checks| => checks[k].message)
  }

  /** The messages of the failing checks, in check order. */
  function FailingMessages(checks: seq<Check>): (r: seq<string>)
    ensures |r| <= |checks|
    ensures r == [] <==> forall k :: 0 <= k < |checks| ==> checks[k].passed
  {
    if checks == [] then []
    else (if checks[0].passed then [] else [checks[0].message]) + FailingMessages(checks[1..])
  }

  /** `a` is `b` with some elements left out and the rest kept in their order. */
  predicate IsSubsequence(a: seq<string>, b: seq<string>)
    decreases |b|
  {
    if b == [] then a == []
    else (a != [] && a[0] == b[0] && IsSubsequence(a[1..], b[1..])) || IsSubsequence(a, b[1..])
  }

  /** Running one more check appends its message when, and only when, it fails:
      the step each aggregator takes per check. */
  lemma {:induction false} FailingMessagesSnoc(checks: seq<Check>, c: Check)
    ensures FailingMessages(checks + [c])
         == FailingMessages(checks) + (if c.passed then [] else [c.message])
  {
    if checks == [] {
      assert checks + [c] == [c];
      assert [c][1..] == [];
    } else {
      assert (checks + [c])[1..] == checks[1..] + [c];
      FailingMessagesSnoc(checks[1..], c);
    }
  }

  /** The sequence with every occurrence of `m` left out. */
  function Without(xs: seq<string>, m: string): (r: seq<string>)
    ensures m !in r
    ensures forall x :: x in r <==> x in xs && x != m
  {
    if xs == [] then []
    else (if xs[0] == m then [] else [xs[0]]) + Without(xs[1..], m)
  }

  /** A message is reported exactly when some check carrying it failed. */
  lemma {:induction false} FailingMessagesMembership(checks: seq<Check>, m: string)
    ensures m in FailingMessages(checks)
        <==> exists k :: 0 <= k < |checks| && checks[k].message == m && !checks[k].passed
  {
    if checks != [] {
      FailingMessagesMembership(checks[1..], m);
      assert forall k :: 1 <= k < |checks| ==> checks[1..][k - 1] == checks[k];
    }
  }

  /** The error list keeps the checks' order: it is a subsequence of all messages. */
  lemma {:induction false} FailingMessagesInOrder(checks: seq<Check>)
    ensures IsSubsequence(FailingMessages(checks), Messages(checks))
  {
    if checks != [] {
      FailingMessagesInOrder(checks[1..]);
      var rest := FailingMessages(checks[1..]);
      assert Messages(checks)[1..] == Messages(checks[1..]);
      if !checks[0].passed {
        assert FailingMessages(checks) == [checks[0].message] + rest;
      } else {
        assert FailingMessages(checks) == rest;
      }
    }
  }

  /** Changing only the outcome of the checks that carry message `m` leaves every
      other message of the error list, and their order, as it was. */
  lemma {:induction false} FailingMessagesWithout(c1: seq<Check>, c2: seq<Check>, m: string)
    requires |c1| == |c2|
    requires forall k :: 0 <= k < |c1| ==> c1[k].message == c2[k].message
    requires forall k :: 0 <= k < |c1| && c1[k].message != m ==> c1[k].passed == c2[k].passed
    ensures Without(FailingMessages(c1), m) == Without(FailingMessages(c2), m)
  {
    if c1 != [] {
      FailingMessagesWithout(c1[1..], c2[1..], m);
      var h1 := if c1[0].passed then [] else [c1[0].message];
      var h2 := if c2[0].passed then [] else [c2[0].message];
      WithoutAppend(h1, FailingMessages(c1[1..]), m);
      WithoutAppend(h2, FailingMessages(c2[1..]), m);
      assert Without(h1, m) == Without(h2, m);
    }
  }

  /** Leaving out `m` distributes over concatenation. */
  lemma {:induction false} WithoutAppend(a: seq<string>, b: seq<string>, m: string)
    ensures Without(a + b, m) == Without(a, m) + Without(b, m)
  {
    if a != [] {
      WithoutAppend(a[1..], b, m);
      assert (a + b)[1..] == a[1..] + b;
    } else {
      assert a + b == b;
    }
  }
}
