/** What the Random node promises, item by item and over a whole batch. */
module RandomNodeProperties {
  import opened JsNumbers
  import opened JsStrings
  import opened RandomNode

  /** No item of the batch fails. */
  predicate NoFailure(operation: string, params: seq<Params>, replies: seq<Reply>)
    requires |replies| == |params|
  {
    forall k :: 0 <= k < |params| ==> !ItemStep(operation, params[k], replies[k]).Failed?
  }

  /** The requests of a run that looked at the items below `upto`: one for
      each of those items that passes the checks and none for any other, in
      item order, each with its item's own bounds. */
  ghost predicate RequestsExactly(requests: seq<Request>, operation: string, params: seq<Params>, upto: nat)
    requires upto <= |params|
  {
    (forall j :: 0 <= j < |requests| ==>
       var r := requests[j];
       r.item < upto && Fetches(operation, params[r.item]) &&
       r.min == params[r.item].min && r.max == params[r.item].max) &&
    (forall j1, j2 :: 0 <= j1 < j2 < |requests| ==> requests[j1].item < requests[j2].item) &&
    (forall k :: 0 <= k < upto && Fetches(operation, params[k]) ==>
       exists j :: 0 <= j < |requests| && requests[j].item == k)
  }

  /** RequestsExactly only looks at the items below `upto`. */
  lemma RequestsExactlyOfPrefix(requests: seq<Request>, operation: string, params: seq<Params>, n: nat, upto: nat)
    requires upto <= n <= |params|
    requires RequestsExactly(requests, operation, params[..n], upto)
    ensures RequestsExactly(requests, operation, params, upto)
  {
    forall k | 0 <= k < upto && Fetches(operation, params[k])
      ensures exists j :: 0 <= j < |requests| && requests[j].item == k
    {
      assert params[..n][k] == params[k];
    }
  }

  /** One more turn keeps the request log exact. */
  lemma RequestsExactlyOfTurn(requests: seq<Request>, operation: string, params: seq<Params>, i: nat)
    requires i < |params|
    requires RequestsExactly(requests, operation, params, i)
    ensures RequestsExactly(if Fetches(operation, params[i])
                            then requests + [Request(i, params[i].min, params[i].max)]
                            else requests, operation, params, i + 1)
  {
    if Fetches(operation, params[i]) {
      var next := requests + [Request(i, params[i].min, params[i].max)];
      forall k | 0 <= k < i + 1 && Fetches(operation, params[k])
        ensures exists j :: 0 <= j < |next| && next[j].item == k
      {
        if k == i {
          assert next[|requests|].item == k;
        } else {
          var j :| 0 <= j < |requests| && requests[j].item == k;
          assert next[j].item == k;
        }
      }
    }
  }

  /** A run that cannot throw (continue-on-fail is set, or no item fails)
      returns one entry per item, in input order, entry k paired with item k
      and holding item k's record or its error message. */
  lemma {:induction false} RunWithoutThrow(operation: string, params: seq<Params>, replies: seq<Reply>,
                                           continueOnFail: bool)
    requires |replies| == |params|
    requires operation == GenerateRandomNumber
    requires continueOnFail || NoFailure(operation, params, replies)
    ensures Run(operation, params, replies, continueOnFail).outcome.Returned?
    ensures var data := Run(operation, params, replies, continueOnFail).outcome.data;
            |data| == |params| &&
            forall k :: 0 <= k < |params| ==>
              data[k] == Entry(CaughtJson(ItemStep(operation, params[k], replies[k])), k)
  {
    if params != [] {
      var i := |params| - 1;
      var ps, rs := params[..i], replies[..i];
      if !continueOnFail {
        assert NoFailure(operation, ps, rs) by {
          assert forall k :: 0 <= k < i ==> ps[k] == params[k] && rs[k] == replies[k];
        }
      }
      RunWithoutThrow(operation, ps, rs, continueOnFail);
      var before := Run(operation, ps, rs, continueOnFail);
      TurnWithoutThrow(before, operation, i, params[i], replies[i], continueOnFail);
      var data := Run(operation, params, replies, continueOnFail).outcome.data;
      assert data == before.outcome.data + [Entry(CaughtJson(ItemStep(operation, params[i], replies[i])), i)];
      forall k | 0 <= k < |params|
        ensures data[k] == Entry(CaughtJson(ItemStep(operation, params[k], replies[k])), k)
      {
        if k < i {
          assert data[k] == before.outcome.data[k];
          assert ps[k] == params[k] && rs[k] == replies[k];
        }
      }
    }
  }

  /** A turn that does not throw appends exactly one entry for its item. */
  lemma TurnWithoutThrow(before: Trace, operation: string, i: nat, p: Params, reply: Reply, continueOnFail: bool)
    requires before.outcome.Returned? && operation == GenerateRandomNumber
    requires continueOnFail || !ItemStep(operation, p, reply).Failed?
    ensures Advance(before, operation, i, p, reply, continueOnFail).outcome
         == Returned(before.outcome.data + [Entry(CaughtJson(ItemStep(operation, p, reply)), i)])
  {
  }

  /** A turn after which the run has not thrown sends its item to the service
      exactly when the item passes the checks. */
  lemma TurnRequests(before: Trace, operation: string, i: nat, p: Params, reply: Reply, continueOnFail: bool)
    requires before.outcome.Returned?
    ensures Advance(before, operation, i, p, reply, continueOnFail).requests
         == if Fetches(operation, p) then before.requests + [Request(i, p.min, p.max)] else before.requests
  {
  }

  /** A run that returns has sent each item that passes the checks to the
      service exactly once, in item order, and no other item. */
  lemma {:induction false} RequestsOfReturnedRun(operation: string, params: seq<Params>, replies: seq<Reply>,
                                                 continueOnFail: bool)
    requires |replies| == |params|
    requires Run(operation, params, replies, continueOnFail).outcome.Returned?
    ensures RequestsExactly(Run(operation, params, replies, continueOnFail).requests, operation, params, |params|)
  {
    if params != [] {
      var i := |params| - 1;
      var ps, rs := params[..i], replies[..i];
      var before := Run(operation, ps, rs, continueOnFail);
      assert before.outcome.Returned?;
      RequestsOfReturnedRun(operation, ps, rs, continueOnFail);
      RequestsExactlyOfPrefix(before.requests, operation, params, i, i);
      RequestsExactlyOfTurn(before.requests, operation, params, i);
      TurnRequests(before, operation, i, params[i], replies[i], continueOnFail);
    }
  }

  /** Without continue-on-fail, the first failing item ends the run with its
      error and no output: no later item is looked at or sent to the service. */
  lemma ThrowsFirstFailure(operation: string, params: seq<Params>, replies: seq<Reply>, k: nat)
    requires |replies| == |params| && k < |params|
    requires ItemStep(operation, params[k], replies[k]).Failed?
    requires forall j :: 0 <= j < k ==> !ItemStep(operation, params[j], replies[j]).Failed?
    ensures Run(operation, params, replies, false).outcome == Thrown(ItemStep(operation, params[k], replies[k]).error)
    ensures RequestsExactly(Run(operation, params, replies, false).requests, operation, params, k + 1)
  {
    var n := k + 1;
    var ps, rs := params[..k], replies[..k];
    var before := Run(operation, ps, rs, false);
    assert before.outcome.Returned? by {
      assert operation == GenerateRandomNumber;
      assert forall j :: 0 <= j < k ==> ps[j] == params[j] && rs[j] == replies[j];
      RunWithoutThrow(operation, ps, rs, false);
    }
    TurnThrows(before, operation, k, params[k], replies[k]);
    RunOfPrefix(operation, params, replies, false, n);
    ThrownIsFinal(operation, params, replies, false, n);
    var requests := Run(operation, params, replies, false).requests;
    assert RequestsExactly(requests, operation, params, k + 1) by {
      RequestsOfReturnedRun(operation, ps, rs, false);
      RequestsExactlyOfPrefix(before.requests, operation, params, k, k);
      RequestsExactlyOfTurn(before.requests, operation, params, k);
    }
  }

  /** The run over the first n items is the run over the first n - 1 followed
      by the turn of item n - 1. */
  lemma RunOfPrefix(operation: string, params: seq<Params>, replies: seq<Reply>, continueOnFail: bool, n: nat)
    requires |replies| == |params| && 0 < n <= |params|
    ensures Run(operation, params[..n], replies[..n], continueOnFail)
         == Advance(Run(operation, params[..n - 1], replies[..n - 1], continueOnFail),
                    operation, n - 1, params[n - 1], replies[n - 1], continueOnFail)
  {
    assert params[..n][..n - 1] == params[..n - 1] && replies[..n][..n - 1] == replies[..n - 1];
  }

  /** A turn whose item fails, without continue-on-fail, throws that error. */
  lemma TurnThrows(before: Trace, operation: string, i: nat, p: Params, reply: Reply)
    requires before.outcome.Returned?
    requires ItemStep(operation, p, reply).Failed?
    ensures Advance(before, operation, i, p, reply, false)
         == Trace(Thrown(ItemStep(operation, p, reply).error),
                  if Fetches(operation, p) then before.requests + [Request(i, p.min, p.max)] else before.requests)
  {
  }

  /** Any operation other than generateRandomNumber emits no entry for any
      item and sends nothing to the service. */
  lemma {:induction false} OtherOperationEmitsNothing(operation: string, params: seq<Params>, replies: seq<Reply>,
                                                      continueOnFail: bool)
    requires |replies| == |params|
    requires operation != GenerateRandomNumber
    ensures Run(operation, params, replies, continueOnFail) == Trace(Returned([]), [])
  {
    if params != [] {
      var i := |params| - 1;
      OtherOperationEmitsNothing(operation, params[..i], replies[..i], continueOnFail);
    }
  }

  /** When min >= max the ordering error is reported, whatever else is wrong
      with the bounds, and nothing is sent to the service. */
  lemma OrderCheckedFirst(p: Params, reply: Reply)
    requires AtLeast(p.min, p.max)
    ensures ItemStep(GenerateRandomNumber, p, reply) == Failed(OrderError)
    ensures ItemStep(GenerateRandomNumber, p, reply).error.Message() == "Minimum value must be less than maximum value"
    ensures !Fetches(GenerateRandomNumber, p)
  {
  }

  /** Bounds that are both wrong (2.5 and 1) get the ordering message. */
  lemma BothChecksFailing(reply: Reply)
    ensures ItemStep(GenerateRandomNumber, Params(Finite(2.5), Finite(1.0)), reply) == Failed(OrderError)
  {
    OrderCheckedFirst(Params(Finite(2.5), Finite(1.0)), reply);
  }

  /** Ordered bounds of which one is not an integer (a fraction, an infinity,
      NaN) get the integrality error, and nothing is sent to the service. */
  lemma IntegralityCheckedSecond(p: Params, reply: Reply)
    requires !AtLeast(p.min, p.max)
    requires !IsInteger(p.min) || !IsInteger(p.max)
    ensures ItemStep(GenerateRandomNumber, p, reply) == Failed(IntegralityError)
    ensures ItemStep(GenerateRandomNumber, p, reply).error.Message() == "Both minimum and maximum values must be integers"
    ensures !Fetches(GenerateRandomNumber, p)
  {
  }

  /** An item is sent to the service exactly when its bounds are two
      integers in increasing order (and the operation is the node's own). */
  lemma FetchesExactly(operation: string, p: Params)
    ensures Fetches(operation, p) <==>
            operation == GenerateRandomNumber &&
            exists a: int, b: int :: a < b && p.min == FromInt(a) && p.max == FromInt(b)
  {
    ValidateExact(p.min, p.max);
  }

  /** A record carries an integer read from a reply body, the very bounds that
      were checked, and the source "Random.org". */
  lemma SuccessRecord(operation: string, p: Params, reply: Reply)
    requires ItemStep(operation, p, reply).Produced?
    ensures var json := ItemStep(operation, p, reply).json;
            reply.Body? && json.RandomRecord? &&
            json.randomNumber == ParseInt(Trim(reply.text)) &&
            (exists k: int :: json.randomNumber == FromInt(k)) &&
            json.min == p.min && json.max == p.max && json.source == "Random.org" &&
            exists a: int, b: int :: a < b && json.min == FromInt(a) && json.max == FromInt(b)
  {
    FetchesExactly(operation, p);
  }

  /** For an item that was sent, the reply body decides: a body that parses to
      NaN makes the item fail with the parse error, and any other body yields
      a record of the Number it parses to (NaN is the only value rejected). */
  lemma ParseFailureReported(p: Params, text: string)
    requires Fetches(GenerateRandomNumber, p)
    ensures ItemStep(GenerateRandomNumber, p, Body(text)) == Failed(ParseFailure) <==> ParseInt(Trim(text)).NaN?
    ensures !ParseInt(Trim(text)).NaN? ==>
              ItemStep(GenerateRandomNumber, p, Body(text)) == Produced(RandomRecord(ParseInt(Trim(text)), p.min, p.max, RandomOrg))
    ensures ParseFailure.Message() == "Failed to generate a valid random number"
  {
  }

  /** parseInt reads the leading numeral and ignores the rest, so the body
      "7 apples" still yields a record of 7. */
  lemma TrailingTextIgnored()
    ensures ItemStep(GenerateRandomNumber, Params(FromInt(1), FromInt(6)), Body("7 apples"))
         == Produced(RandomRecord(FromInt(7), FromInt(1), FromInt(6), RandomOrg))
  {
    TrimOfPadded("", "7 apples", "");
    assert "" + "7 apples" + "" == "7 apples";
    ParseIntOfNumeral("", "", "7", " apples");
    assert "" + "" + "7" + " apples" == "7 apples";
    IsIntegerExact(FromInt(1));
    IsIntegerExact(FromInt(6));
    ParseFailureReported(Params(FromInt(1), FromInt(6)), "7 apples");
  }

  /** A transport failure is the item's error, its message kept as it is. */
  lemma TransportFailureSurfaced(p: Params, message: string)
    requires Fetches(GenerateRandomNumber, p)
    ensures ItemStep(GenerateRandomNumber, p, TransportError(message)) == Failed(TransportFailure(message))
    ensures TransportFailure(message).Message() == message
  {
  }

  /** For integer bounds a < b, a reply holding the numeral of k, padded with
      white space, yields a record of k with those bounds. */
  lemma ReplyReadBack(a: int, b: int, k: int, w1: string, w2: string)
    requires a < b
    requires AllWhiteSpace(w1) && AllWhiteSpace(w2)
    ensures ItemStep(GenerateRandomNumber, Params(FromInt(a), FromInt(b)), Body(w1 + IntToDecimal(k) + w2))
         == Produced(RandomRecord(FromInt(k), FromInt(a), FromInt(b), RandomOrg))
  {
    ParseIntOfDecimal(k, w1, w2);
    IsIntegerExact(FromInt(a));
    IsIntegerExact(FromInt(b));
  }

  /** With the client's default decoding every request fails: for bounds 1
      and 6, the body "4\n" read as text yields a record of 4, but handed over
      as the Number 4 it fails with a TypeError. */
  lemma NumericBodyFails()
    ensures ItemStep(GenerateRandomNumber, Params(FromInt(1), FromInt(6)), Body("4\n"))
         == Produced(RandomRecord(FromInt(4), FromInt(1), FromInt(6), RandomOrg))
    ensures ItemStepAsWritten(GenerateRandomNumber, Params(FromInt(1), FromInt(6)), Data(NumberData(FromInt(4))))
         == Failed(TrimNotAFunction)
  {
    assert IntToDecimal(4) == "4";
    ReplyReadBack(1, 6, 4, "", "\n");
    assert "" + IntToDecimal(4) + "\n" == "4\n";
  }

  /** The body "42\n" is read as 42. */
  lemma TrailingNewline()
    ensures ParseInt(Trim("42\n")) == FromInt(42)
  {
    assert NatToDecimal(4) == "4";
    assert NatToDecimal(42) == NatToDecimal(4) + "2";
    ParseIntOfDecimal(42, "", "\n");
    assert "" + IntToDecimal(42) + "\n" == "42\n";
  }

  /** The body "not-a-number" is not read as a number. */
  lemma NotANumber()
    ensures ParseInt(Trim("not-a-number")).NaN?
  {
    TrimOfPadded("", "not-a-number", "");
    assert "" + "not-a-number" + "" == "not-a-number";
    ParseIntOfNoNumeral("", "", "not-a-number");
  }

  /** The number read is not checked against the bounds: a reply of 7 for
      bounds 1 and 6 still yields a record of 7. */
  lemma RangeNotRechecked()
    ensures ItemStep(GenerateRandomNumber, Params(FromInt(1), FromInt(6)), Body("7\n"))
         == Produced(RandomRecord(FromInt(7), FromInt(1), FromInt(6), RandomOrg))
  {
    assert IntToDecimal(7) == "7";
    ReplyReadBack(1, 6, 7, "", "\n");
    assert "" + IntToDecimal(7) + "\n" == "7\n";
  }
}
