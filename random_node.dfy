/** The Random node: for each input item, check the bounds `min` and `max`,
    ask random.org for one integer between them, read the integer out of the
    plain-text reply and emit it, paired with the item's index.

    The host's parameter lookup, the continue-on-fail setting and the HTTP
    client are not modelled as calls: the bounds of every item, the flag and
    the reply the service would give for each item are inputs. */
module RandomNode {
  import opened JsNumbers
  import opened JsStrings

  /** The only operation the node offers. */
  const GenerateRandomNumber: string := "generateRandomNumber"

  /** The `source` field of every generated record. */
  const RandomOrg: string := "Random.org"

  /** The bounds the host resolves for one item. */
  datatype Params = Params(min: JsNumber, max: JsNumber)

  /** What the remote service does when asked for one item's number: answer
      with a body, or fail in transport (timeout, connection, non-2xx). */
  datatype Reply = Body(text: string) | TransportError(message: string)

  const OrderMessage: string := "Minimum value must be less than maximum value"
  const IntegralityMessage: string := "Both minimum and maximum values must be integers"
  const ParseMessage: string := "Failed to generate a valid random number"
  /** The TypeError raised by calling `.trim` on a Number. */
  const TrimMessage: string := "response.data.trim is not a function"

  /** Why an item failed. */
  datatype ItemError =
    | OrderError
    | IntegralityError
    | TransportFailure(cause: string)
    | ParseFailure
    | TrimNotAFunction
  {
    /** The error's message: what an error record carries. A fixed message
        names the one check that raised it; a transport failure keeps the
        client's own message. */
    function Message(): (m: string)
      ensures TransportFailure? ==> m == cause
      ensures !TransportFailure? ==>
                (m == OrderMessage <==> OrderError?) && (m == IntegralityMessage <==> IntegralityError?) &&
                (m == ParseMessage <==> ParseFailure?) && (m == TrimMessage <==> TrimNotAFunction?)
    {
      match this
      case OrderError => OrderMessage
      case IntegralityError => IntegralityMessage
      case TransportFailure(cause) => cause
      case ParseFailure => ParseMessage
      case TrimNotAFunction => TrimMessage
    }
  }

  /** The `json` part of an output item (the timestamp is not modelled). */
  datatype Json =
    | RandomRecord(randomNumber: JsNumber, min: JsNumber, max: JsNumber, source: string)
    | ErrorRecord(error: string)

  /** An output item: its json and the index of the input item it pairs with. */
  datatype Entry = Entry(json: Json, pairedItem: nat)

  /** One request to the remote service: for which item, with which bounds. */
  datatype Request = Request(item: nat, min: JsNumber, max: JsNumber)

  /** How a run ends: it returns the output items, or throws an item's error. */
  datatype Outcome = Returned(data: seq<Entry>) | Thrown(error: ItemError)

  /** A run's outcome together with the requests it made, in order. */
  datatype Trace = Trace(outcome: Outcome, requests: seq<Request>)

  datatype Validation = Valid | Invalid(error: ItemError)

  /** What one item contributes: nothing (another operation), a record, or an error. */
  datatype Step = Skipped | Produced(json: Json) | Failed(error: ItemError)

  /** isInteger: a finite Number whose floor is itself. */
  predicate IsInteger(n: JsNumber): (r: bool)
    ensures r ==> n.Finite? && n == FromInt(n.value.Floor)
    ensures n.NaN? || n.PositiveInfinity? || n.NegativeInfinity? ==> !r
  {
    n.Finite? && n.value.Floor as real == n.value
  }

  /** isInteger holds exactly of the Numbers that denote an integer. */
  lemma IsIntegerExact(n: JsNumber)
    ensures IsInteger(n) <==> exists k: int :: n == FromInt(k)
  {
    if IsInteger(n) {
      assert n == FromInt(n.value.Floor);
    }
  }

  /** The checks made before any request: order first, then integrality. */
  function Validate(min: JsNumber, max: JsNumber): (v: Validation)
    ensures AtLeast(min, max) ==> v == Invalid(OrderError)
    ensures !AtLeast(min, max) && !(IsInteger(min) && IsInteger(max)) ==> v == Invalid(IntegralityError)
    ensures v == Valid ==> min.Finite? && max.Finite? && min.value < max.value
  {
    if AtLeast(min, max) then Invalid(OrderError)
    else if !IsInteger(min) || !IsInteger(max) then Invalid(IntegralityError)
    else Valid
  }

  /** The checks pass exactly for two integers in increasing order. */
  lemma ValidateExact(min: JsNumber, max: JsNumber)
    ensures Validate(min, max) == Valid <==>
            exists a: int, b: int :: a < b && min == FromInt(a) && max == FromInt(b)
  {
    IsIntegerExact(min);
    IsIntegerExact(max);
    if Validate(min, max) == Valid {
      assert min == FromInt(min.value.Floor) && max == FromInt(max.value.Floor);
    }
  }

  /** Whether the item is sent to the remote service. */
  predicate Fetches(operation: string, p: Params)
  {
    operation == GenerateRandomNumber && Validate(p.min, p.max) == Valid
  }

  /** The body of the loop's try block, for one item, as a value. */
  function ItemStep(operation: string, p: Params, reply: Reply): (s: Step)
    ensures s.Skipped? <==> operation != GenerateRandomNumber
    ensures s.Produced? ==> Fetches(operation, p) && s.json.RandomRecord?
  {
    if operation != GenerateRandomNumber then Skipped
    else
      match Validate(p.min, p.max)
      case Invalid(e) => Failed(e)
      case Valid =>
        match reply
        case TransportError(m) => Failed(TransportFailure(m))
        case Body(text) =>
          var randomNumber := ParseInt(Trim(text));
          if randomNumber.NaN? then Failed(ParseFailure)
          else Produced(RandomRecord(randomNumber, p.min, p.max, RandomOrg))
  }

  /** `response.data` as the HTTP client hands it over: the body's text, or
      the Number the client decoded the body into. */
  datatype ResponseData = TextData(text: string) | NumberData(number: JsNumber)

  /** The outcome of the client call for one item. */
  datatype ClientReply = Data(data: ResponseData) | ClientError(message: string)

  /** The try block as written, when the client decodes the body itself (its
      default: a body that parses as JSON, such as "42\n", arrives as the
      Number 42). `.trim` is not a function of a Number, so such a reply
      fails the item with a TypeError instead of yielding a record. */
  function ItemStepAsWritten(operation: string, p: Params, reply: ClientReply): (s: Step)
    ensures reply.ClientError? ==> s == ItemStep(operation, p, TransportError(reply.message))
    ensures reply.Data? && reply.data.TextData? ==> s == ItemStep(operation, p, Body(reply.data.text))
    ensures reply.Data? && reply.data.NumberData? ==>
              !s.Produced? && (s == Failed(TrimNotAFunction) <==> Fetches(operation, p))
  {
    if operation != GenerateRandomNumber then Skipped
    else
      match Validate(p.min, p.max)
      case Invalid(e) => Failed(e)
      case Valid =>
        match reply
        case ClientError(m) => Failed(TransportFailure(m))
        case Data(NumberData(_)) => Failed(TrimNotAFunction)
        case Data(TextData(text)) =>
          var randomNumber := ParseInt(Trim(text));
          if randomNumber.NaN? then Failed(ParseFailure)
          else Produced(RandomRecord(randomNumber, p.min, p.max, RandomOrg))
  }

  /** The output item a processed item gives when its error is caught. */
  function CaughtJson(s: Step): Json
    requires !s.Skipped?
  {
    match s
    case Produced(json) => json
    case Failed(e) => ErrorRecord(e.Message())
  }

  /** One turn of the loop, for item i: nothing more happens after a throw;
      otherwise the item may be sent to the service, and its record or its
      caught error is appended, or its error is thrown. */
  function Advance(before: Trace, operation: string, i: nat, p: Params, reply: Reply, continueOnFail: bool): (after: Trace)
    ensures before.outcome.Thrown? ==> after == before
    ensures |before.requests| <= |after.requests| <= |before.requests| + 1
    ensures after.outcome.Returned? ==>
              before.outcome.Returned? &&
              |before.outcome.data| <= |after.outcome.data| <= |before.outcome.data| + 1
  {
    if before.outcome.Thrown? then before
    else
      var requests := if Fetches(operation, p) then before.requests + [Request(i, p.min, p.max)]
                      else before.requests;
      var data := before.outcome.data;
      match ItemStep(operation, p, reply)
      case Skipped => Trace(Returned(data), requests)
      case Produced(json) => Trace(Returned(data + [Entry(json, i)]), requests)
      case Failed(e) =>
        if continueOnFail then Trace(Returned(data + [Entry(ErrorRecord(e.Message()), i)]), requests)
        else Trace(Thrown(e), requests)
  }

  /** A turn only appends: the requests and the entries it starts from are
      kept, unchanged and in place, at the front of what it leaves. */
  lemma AdvanceAppends(before: Trace, operation: string, i: nat, p: Params, reply: Reply, continueOnFail: bool)
    ensures var after := Advance(before, operation, i, p, reply, continueOnFail);
            before.requests <= after.requests &&
            (after.outcome.Returned? ==> before.outcome.data <= after.outcome.data)
  {
  }

  /** The run over the items of params, one turn per item in order. */
  function Run(operation: string, params: seq<Params>, replies: seq<Reply>, continueOnFail: bool): (t: Trace)
    requires |replies| == |params|
    ensures |t.requests| <= |params|
    ensures t.outcome.Returned? ==> |t.outcome.data| <= |params|
    decreases |params|
  {
    if params == [] then Trace(Returned([]), [])
    else
      var i := |params| - 1;
      Advance(Run(operation, params[..i], replies[..i], continueOnFail), operation, i, params[i], replies[i], continueOnFail)
  }

  /** Once a run has thrown, later items change nothing. */
  lemma {:induction false} ThrownIsFinal(operation: string, params: seq<Params>, replies: seq<Reply>,
                                         continueOnFail: bool, m: nat)
    requires |replies| == |params| && m <= |params|
    requires Run(operation, params[..m], replies[..m], continueOnFail).outcome.Thrown?
    ensures Run(operation, params, replies, continueOnFail) == Run(operation, params[..m], replies[..m], continueOnFail)
    decreases |params| - m
  {
    if m < |params| {
      var n := m + 1;
      assert params[..n][..m] == params[..m] && replies[..n][..m] == replies[..m];
      ThrownIsFinal(operation, params, replies, continueOnFail, n);
    } else {
      assert params[..m] == params && replies[..m] == replies;
    }
  }

  /** The try block of Random.execute for item i, statement by statement:
      the checks, then the request and the reading of its reply. ItemStep is
      its specification; what the method adds is the point at which the
      request is made, logged in `sent`. */
  method TryItem(operation: string, i: nat, p: Params, reply: Reply)
    returns (step: Step, ghost sent: seq<Request>)
    ensures step == ItemStep(operation, p, reply)
    ensures sent == if Fetches(operation, p) then [Request(i, p.min, p.max)] else []
  {
    step, sent := Skipped, [];
    if operation == GenerateRandomNumber {
      var min := p.min;
      var max := p.max;
      if AtLeast(min, max) {
        step := Failed(OrderError);
      } else if !IsInteger(min) || !IsInteger(max) {
        step := Failed(IntegralityError);
      } else {
        sent := [Request(i, min, max)];
        match reply {
          case TransportError(message) =>
            step := Failed(TransportFailure(message));
          case Body(text) =>
            var randomNumber := ParseInt(Trim(text));
            if randomNumber.NaN? {
              step := Failed(ParseFailure);
            } else {
              step := Produced(RandomRecord(randomNumber, min, max, RandomOrg));
            }
        }
      }
    }
  }

  /** Random.execute: the items are processed one after another; an item's
      error becomes an error record when continueOnFail is set, and otherwise
      ends the run. `requests` logs the calls made to the remote service. */
  method Execute(operation: string, params: seq<Params>, replies: seq<Reply>, continueOnFail: bool)
    returns (outcome: Outcome, ghost requests: seq<Request>)
    requires |replies| == |params|
    ensures outcome == Run(operation, params, replies, continueOnFail).outcome
    ensures requests == Run(operation, params, replies, continueOnFail).requests
  {
    var returnData: seq<Entry> := [];
    requests := [];
    var i := 0;
    while i < |params|
      invariant 0 <= i <= |params|
      invariant Run(operation, params[..i], replies[..i], continueOnFail) == Trace(Returned(returnData), requests)
    {
      ghost var next := Advance(Trace(Returned(returnData), requests), operation, i, params[i], replies[i], continueOnFail);
      assert Run(operation, params[..i + 1], replies[..i + 1], continueOnFail) == next by {
        assert params[..i + 1][..i] == params[..i] && replies[..i + 1][..i] == replies[..i];
      }
      var step, sent := TryItem(operation, i, params[i], replies[i]);
      requests := requests + sent;
      match step {
        case Skipped =>
        case Produced(json) =>
          returnData := returnData + [Entry(json, i)];
        case Failed(error) =>
          if continueOnFail {
            returnData := returnData + [Entry(ErrorRecord(error.Message()), i)];
          } else {
            outcome := Thrown(error);
            assert next == Trace(outcome, requests);
            ThrownIsFinal(operation, params, replies, continueOnFail, i + 1);
            return;
          }
      }
      assert next == Trace(Returned(returnData), requests);
      i := i + 1;
    }
    assert params[..i] == params && replies[..i] == replies;
    outcome := Returned(returnData);
  }
}
