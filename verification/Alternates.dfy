/**
 * Running one API operation through a mapping's endpoint and, when the API version does
 * not match, through its alternates in order.
 */
module Alternates {
  import opened Options
  import opened JsonValues

  datatype Endpoint = Endpoint(api: string, method_: string)

  /** An error text, with the two phrases the code looks for in it: that the version does not
      match the expected API version, and that the namespaces of object and request differ.
      Wrapping a text in another keeps both. */
  datatype Text = Text(body: string, versionMismatch: bool, namespaceClash: bool)

  /** What the foreign client does: the parameter names of an endpoint (none when class or
      method do not exist), and the answer to a call. */
  datatype Answer = Value(value: Json) | Failure(text: Text)

  datatype Api = Api(parameters: Endpoint -> Option<seq<string>>, call: (Endpoint, Dict) -> Answer)

  /** How an attempt ends: a result, a `KuberentesApiOperationError`, or any other exception. */
  datatype Attempt = Returned(value: Json) | ApiFailure(text: Text) | Refused(text: Text)

  /** The argument map without falsy values. */
  function DropFalsy(arguments: Dict): Dict {
    map k | k in arguments && Truthy(arguments[k]) :: arguments[k]
  }

  lemma {:induction false} DropFalsyIdempotent(arguments: Dict)
    ensures DropFalsy(DropFalsy(arguments)) == DropFalsy(arguments)
  {
  }

  /** The arguments passed on: every parameter, which must be there, and the accepted
      options that are; none when a parameter is missing. */
  function PreparedArguments(parameters: seq<string>, accepted: seq<string>, arguments: Dict): Option<Dict> {
    if exists p :: p in parameters && p !in arguments then None
    else Some(map k | k in arguments && (k in parameters || k in accepted) :: arguments[k])
  }

  const MISSING_ARGUMENT := Text("input argument is not defined but is mandatory", false, false)
  const UNSUPPORTED := Text("class or method not supported", false, false)

  /** The exception an error inside the operation becomes. */
  function Surfaced(text: Text): Attempt {
    if text.namespaceClash then Refused(text) else ApiFailure(text)
  }

  /** One attempt, whose endpoint has these parameters. */
  function Executed(api: Api, accepted: seq<string>, e: Endpoint, parameters: seq<string>, arguments: Dict): Attempt {
    var prepared := PreparedArguments(parameters, accepted, DropFalsy(arguments));
    if prepared.None? then Surfaced(MISSING_ARGUMENT)
    else match api.call(e, prepared.value)
      case Value(v) => Returned(v)
      case Failure(text) => Surfaced(text)
  }

  function Attempted(api: Api, accepted: seq<string>, e: Endpoint, arguments: Dict): Attempt {
    var parameters := api.parameters(e);
    if parameters.None? then Refused(UNSUPPORTED) else Executed(api, accepted, e, parameters.value, arguments)
  }

  predicate Mismatched(a: Attempt) {
    a.ApiFailure? && a.text.versionMismatch
  }

  /** The first attempt that is no version mismatch; the number of attempts when all are. */
  function FirstSettled(attempts: seq<Attempt>): (i: nat)
    ensures i <= |attempts|
    ensures i < |attempts| ==> !Mismatched(attempts[i])
    ensures forall j :: 0 <= j < i ==> Mismatched(attempts[j])
  {
    if attempts == [] || !Mismatched(attempts[0]) then 0 else 1 + FirstSettled(attempts[1..])
  }

  function AttemptAll(api: Api, accepted: seq<string>, endpoints: seq<Endpoint>, arguments: Dict): seq<Attempt> {
    seq(|endpoints|, i requires 0 <= i < |endpoints| => Attempted(api, accepted, endpoints[i], arguments))
  }

  /** Attempting with arguments from which falsy values are gone is the same attempt. */
  lemma {:induction false} AttemptIgnoresFalsy(api: Api, accepted: seq<string>, e: Endpoint, arguments: Dict)
    ensures Attempted(api, accepted, e, DropFalsy(arguments)) == Attempted(api, accepted, e, arguments)
  {
    DropFalsyIdempotent(arguments);
  }

  lemma {:induction false} SettledAt(attempts: seq<Attempt>, n: nat)
    requires n <= |attempts| && (n < |attempts| ==> !Mismatched(attempts[n]))
    requires forall j :: 0 <= j < n ==> Mismatched(attempts[j])
    ensures FirstSettled(attempts) == n
  {
  }

  lemma {:induction false} AttemptAt(api: Api, accepted: seq<string>, endpoints: seq<Endpoint>, arguments: Dict, i: nat)
    requires i < |endpoints|
    ensures |AttemptAll(api, accepted, endpoints, arguments)| == |endpoints|
    ensures AttemptAll(api, accepted, endpoints, arguments)[i] == Attempted(api, accepted, endpoints[i], arguments)
  {
  }

  /** The operations run for these endpoints, each with the argument map handed to it; an
      endpoint the client does not have runs none. */
  function HandedOver(api: Api, endpoints: seq<Endpoint>, arguments: Dict): seq<(Endpoint, Dict)> {
    if endpoints == [] then []
    else
      var n := |endpoints| - 1;
      HandedOver(api, endpoints[..n], arguments)
      + (if api.parameters(endpoints[n]).Some? then [(endpoints[n], arguments)] else [])
  }

  lemma {:induction false} HandedOverNext(api: Api, endpoints: seq<Endpoint>, n: nat, arguments: Dict)
    requires n < |endpoints|
    ensures HandedOver(api, [], arguments) == []
    ensures HandedOver(api, endpoints[..n + 1], arguments) ==
            HandedOver(api, endpoints[..n], arguments)
            + (if api.parameters(endpoints[n]).Some? then [(endpoints[n], arguments)] else [])
  {
    assert endpoints[..n + 1][..n] == endpoints[..n];
  }

  // ------------------------------------------- what the caller is told

  /** The endpoint can be called: it is there, and everything it takes is given and not falsy. */
  predicate Callable(api: Api, e: Endpoint, arguments: Dict) {
    && api.parameters(e).Some?
    && forall p :: p in api.parameters(e).value ==> p in arguments && Truthy(arguments[p])
  }

  /** What the foreign client answers when it is called with exactly those of the truthy arguments
      that the endpoint takes or that are accepted everywhere. */
  function AnswerTo(api: Api, accepted: seq<string>, e: Endpoint, arguments: Dict): Answer
    requires Callable(api, e, arguments)
  {
    api.call(e, map k | k in arguments && Truthy(arguments[k]) && (k in api.parameters(e).value || k in accepted)
                  :: arguments[k])
  }

  /** It answers that the version does not match. */
  predicate AnswersMismatch(api: Api, accepted: seq<string>, e: Endpoint, arguments: Dict) {
    Callable(api, e, arguments)
    && var a := AnswerTo(api, accepted, e, arguments);
       a.Failure? && a.text.versionMismatch && !a.text.namespaceClash
  }

  /** Endpoint `i` is come to: all before it have answered that the version does not match. */
  ghost predicate ComesTo(api: Api, accepted: seq<string>, endpoints: seq<Endpoint>, arguments: Dict, i: nat)
    requires i <= |endpoints|
  {
    forall j :: 0 <= j < i ==> AnswersMismatch(api, accepted, endpoints[j], arguments)
  }

  /** An endpoint come to answers with the value. */
  ghost predicate AnswersAt(api: Api, accepted: seq<string>, endpoints: seq<Endpoint>, arguments: Dict, i: nat, v: Json)
    requires i < |endpoints|
  {
    && ComesTo(api, accepted, endpoints, arguments, i)
    && Callable(api, endpoints[i], arguments) && AnswerTo(api, accepted, endpoints[i], arguments) == Value(v)
  }

  /** Not recoverable: an endpoint come to is not there, or finds the namespaces clashing. */
  ghost predicate RefusedAt(api: Api, accepted: seq<string>, endpoints: seq<Endpoint>, arguments: Dict, i: nat,
        text: Text)
    requires i < |endpoints|
  {
    && ComesTo(api, accepted, endpoints, arguments, i)
    && ((api.parameters(endpoints[i]).None? && text == UNSUPPORTED)
        || (Callable(api, endpoints[i], arguments) && text.namespaceClash
            && AnswerTo(api, accepted, endpoints[i], arguments) == Failure(text)))
  }

  /** An API failure: an endpoint come to lacks an argument, or fails otherwise. */
  ghost predicate FailsAt(api: Api, accepted: seq<string>, endpoints: seq<Endpoint>, arguments: Dict, i: nat,
        text: Text)
    requires i < |endpoints|
  {
    && ComesTo(api, accepted, endpoints, arguments, i)
    && ((api.parameters(endpoints[i]).Some? && !Callable(api, endpoints[i], arguments) && text == MISSING_ARGUMENT)
        || (Callable(api, endpoints[i], arguments) && !text.namespaceClash && !text.versionMismatch
            && AnswerTo(api, accepted, endpoints[i], arguments) == Failure(text)))
  }

  /** What the foreign client's answers alone say of the outcome. */
  ghost predicate Told(api: Api, accepted: seq<string>, endpoints: seq<Endpoint>, arguments: Dict, r: Attempt)
    requires endpoints != []
  {
    match r
    case Returned(v) => exists i :: 0 <= i < |endpoints| && AnswersAt(api, accepted, endpoints, arguments, i, v)
    case Refused(text) => exists i :: 0 <= i < |endpoints| && RefusedAt(api, accepted, endpoints, arguments, i, text)
    case ApiFailure(text) =>
      || (exists i :: 0 <= i < |endpoints| && FailsAt(api, accepted, endpoints, arguments, i, text))
      || (&& ComesTo(api, accepted, endpoints, arguments, |endpoints|) && Callable(api, endpoints[0], arguments)
          && AnswerTo(api, accepted, endpoints[0], arguments) == Failure(text))
  }

  /** One attempt, in terms of the foreign client's answers. */
  lemma {:induction false} AttemptTold(api: Api, accepted: seq<string>, e: Endpoint, arguments: Dict)
    ensures var a := Attempted(api, accepted, e, arguments);
            && (Mismatched(a) <==> AnswersMismatch(api, accepted, e, arguments))
            && (if api.parameters(e).None? then a == Refused(UNSUPPORTED)
                else if !Callable(api, e, arguments) then a == ApiFailure(MISSING_ARGUMENT)
                else match AnswerTo(api, accepted, e, arguments)
                  case Value(v) => a == Returned(v)
                  case Failure(text) => a == if text.namespaceClash then Refused(text) else ApiFailure(text))
  {
    if Callable(api, e, arguments) {
      var given := DropFalsy(arguments);
      var parameters := api.parameters(e).value;
      assert (map k | k in given && (k in parameters || k in accepted) :: given[k]) ==
             map k | k in arguments && Truthy(arguments[k]) && (k in parameters || k in accepted) :: arguments[k];
    }
  }

  /** The case of this outcome holds of endpoint `i`. */
  ghost predicate ToldAt(api: Api, accepted: seq<string>, endpoints: seq<Endpoint>, arguments: Dict, i: nat, r: Attempt)
    requires i < |endpoints|
  {
    match r
    case Returned(v) => AnswersAt(api, accepted, endpoints, arguments, i, v)
    case Refused(text) => RefusedAt(api, accepted, endpoints, arguments, i, text)
    case ApiFailure(text) => FailsAt(api, accepted, endpoints, arguments, i, text)
  }

  lemma {:induction false} ToldAtExactly(api: Api, accepted: seq<string>, endpoints: seq<Endpoint>, arguments: Dict,
        i: nat,
          r: Attempt)
    requires i < |endpoints|
    ensures ToldAt(api, accepted, endpoints, arguments, i, r) <==>
            && ComesTo(api, accepted, endpoints, arguments, i)
            && !AnswersMismatch(api, accepted, endpoints[i], arguments)
            && Attempted(api, accepted, endpoints[i], arguments) == r
  {
    AttemptTold(api, accepted, endpoints[i], arguments);
    hide Attempted, AnswerTo, ComesTo;
  }

  lemma {:induction false} ToldSomewhere(api: Api, accepted: seq<string>, endpoints: seq<Endpoint>, arguments: Dict,
        r: Attempt)
    requires endpoints != []
    ensures Told(api, accepted, endpoints, arguments, r) <==>
            || (exists i :: 0 <= i < |endpoints| && ToldAt(api, accepted, endpoints, arguments, i, r))
            || (&& ComesTo(api, accepted, endpoints, arguments, |endpoints|)
                && r == Attempted(api, accepted, endpoints[0], arguments))
  {
    AttemptTold(api, accepted, endpoints[0], arguments);
    hide Attempted, AnswerTo, AnswersAt, RefusedAt, FailsAt;
    assert ComesTo(api, accepted, endpoints, arguments, |endpoints|) ==>
             AnswersMismatch(api, accepted, endpoints[0], arguments);
    match r
    case Returned(v) =>
      assert forall i :: 0 <= i < |endpoints| ==>
        (ToldAt(api, accepted, endpoints, arguments, i, r) <==> AnswersAt(api, accepted, endpoints, arguments, i, v));
    case Refused(text) =>
      assert forall i :: 0 <= i < |endpoints| ==>
        (ToldAt(api, accepted, endpoints, arguments, i, r) <==>
          RefusedAt(api, accepted, endpoints, arguments, i, text));
    case ApiFailure(text) =>
      assert forall i :: 0 <= i < |endpoints| ==>
        (ToldAt(api, accepted, endpoints, arguments, i, r) <==> FailsAt(api, accepted, endpoints, arguments, i, text));
  }

  /** The outcome over main and alternate endpoints is the one that the answers of the foreign
      client tell; they tell exactly one. */
  lemma {:induction false} OutcomeTold(api: Api, accepted: seq<string>, endpoints: seq<Endpoint>, arguments: Dict,
        r: Attempt)
    requires endpoints != []
    ensures var attempts := AttemptAll(api, accepted, endpoints, arguments);
            var i := FirstSettled(attempts);
            Told(api, accepted, endpoints, arguments, r) <==> r == if i < |attempts| then attempts[i] else attempts[0]
  {
    ToldSomewhere(api, accepted, endpoints, arguments, r);
    hide Attempted, Callable, AnswerTo, AnswersMismatch, Told, ToldAt;
    var attempts := AttemptAll(api, accepted, endpoints, arguments);
    forall i | 0 <= i < |endpoints|
      ensures attempts[i] == Attempted(api, accepted, endpoints[i], arguments)
      ensures Mismatched(attempts[i]) <==> AnswersMismatch(api, accepted, endpoints[i], arguments)
    {
      AttemptTold(api, accepted, endpoints[i], arguments);
    }
    var n := FirstSettled(attempts);
    forall i | 0 <= i < |endpoints|
      ensures ToldAt(api, accepted, endpoints, arguments, i, r) <==> i == n && r == attempts[i]
    {
      ToldAtExactly(api, accepted, endpoints, arguments, i, r);
      if ComesTo(api, accepted, endpoints, arguments, i) && !Mismatched(attempts[i]) { SettledAt(attempts, i); }
    }
  }

  /** The client with the options dict its calls share, and the argument maps handed to the
      operations so far. */
  class Client {
    const api: Api
    const accepted: seq<string>
    var arguments: Dict
    var handed: seq<(Endpoint, Dict)>

    constructor (api: Api, accepted: seq<string>, arguments: Dict)
      ensures this.api == api && this.accepted == accepted && this.arguments == arguments && handed == []
    {
      this.api, this.accepted, this.arguments, this.handed := api, accepted, arguments, [];
    }

    /** `_prepare_arguments`: the mandatory loop stops at the first missing argument. */
    static method PrepareArguments(parameters: seq<string>, accepted: seq<string>,
            arguments: Dict) returns (r: Option<Dict>)
      ensures r == PreparedArguments(parameters, accepted, arguments)
    {
      var result: Dict := map[];
      for i := 0 to |parameters|
        invariant forall j :: 0 <= j < i ==> parameters[j] in arguments
        invariant result == map k | k in arguments && k in parameters[..i] :: arguments[k]
      {
        if parameters[i] !in arguments {
          assert parameters[i] in parameters;
          return None;
        }
        result := result[parameters[i] := arguments[parameters[i]]];
      }
      assert parameters[..|parameters|] == parameters;
      for i := 0 to |accepted|
        invariant result == map k | k in arguments && (k in parameters || k in accepted[..i]) :: arguments[k]
      {
        if accepted[i] in arguments {
          result := result[accepted[i] := arguments[accepted[i]]];
        }
      }
      assert accepted[..|accepted|] == accepted;
      r := Some(result);
    }

    /** `_execute`: falsy arguments are deleted from the shared dict first. */
    method Execute(e: Endpoint, parameters: seq<string>) returns (r: Attempt)
      modifies this
      ensures arguments == DropFalsy(old(arguments))
      ensures handed == old(handed) + [(e, arguments)]
      ensures r == Executed(api, accepted, e, parameters, old(arguments))
      ensures if exists p :: p in parameters && (p !in old(arguments) || !Truthy(old(arguments)[p]))
              then r == ApiFailure(MISSING_ARGUMENT)
              else match api.call(e, map k | k in arguments && (k in parameters || k in accepted) :: arguments[k])
                case Value(v) => r == Returned(v)
                case Failure(text) => r == if text.namespaceClash then Refused(text) else ApiFailure(text)
    {
      var todo := arguments.Keys;
      while todo != {}
        invariant todo <= old(arguments).Keys
        invariant handed == old(handed)
        invariant arguments == map k | k in old(arguments)
            && (k in todo || Truthy(old(arguments)[k])) :: old(arguments)[k]
      {
        var k :| k in todo;
        todo := todo - {k};
        if !Truthy(arguments[k]) {
          arguments := arguments - {k};
        }
      }
      handed := handed + [(e, arguments)];
      var prepared := PrepareArguments(parameters, accepted, arguments);
      if prepared.None? { return Surfaced(MISSING_ARGUMENT); }
      match api.call(e, prepared.value) {
        case Value(v) => r := Returned(v);
        case Failure(text) => r := Surfaced(text);
      }
    }

    method TryEndpoint(e: Endpoint) returns (r: Attempt)
      modifies this
      ensures r == Attempted(api, accepted, e, old(arguments))
      ensures if api.parameters(e).None? then r.Refused? && unchanged(this)
              else arguments == DropFalsy(old(arguments)) && handed == old(handed) + [(e, DropFalsy(old(arguments)))]
    {
      var parameters := api.parameters(e);
      if parameters.None? { return Refused(UNSUPPORTED); }
      r := Execute(e, parameters.value);
    }

    /** `execute_with_alternates`: the outcome is that of the first endpoint, main or
        alternate, that is no version mismatch, and the original error when all are; every
        operation is handed the same arguments, and none runs after the settling one. */
    method ExecuteWithAlternates(main: Endpoint, alternates: seq<Endpoint>) returns (r: Attempt)
      modifies this
      ensures Told(api, accepted, [main] + alternates, old(arguments), r)
      ensures var endpoints := [main] + alternates;
              var attempts := AttemptAll(api, accepted, endpoints, old(arguments));
              var i := FirstSettled(attempts);
              && r == (if i < |attempts| then attempts[i] else attempts[0])
              && handed == old(handed) + HandedOver(api, endpoints[..if i < |attempts| then i + 1 else i],
                   DropFalsy(old(arguments)))
    {
      hide Attempted, DropFalsy, AttemptAll, HandedOver;
      ghost var given := arguments;
      ghost var endpoints := [main] + alternates;
      ghost var attempts := AttemptAll(api, accepted, endpoints, given);
      AttemptAt(api, accepted, endpoints, given, 0);
      HandedOverNext(api, endpoints, 0, DropFalsy(given));
      r := TryEndpoint(main);
      assert r == attempts[0] && endpoints[..0] == [];
      assert handed == old(handed) + HandedOver(api, endpoints[..1], DropFalsy(given));
      if !Mismatched(r) {
        SettledAt(attempts, 0);
        OutcomeTold(api, accepted, endpoints, given, r);
        return;
      }
      for i := 0 to |alternates|
        invariant forall j :: 0 <= j <= i ==> Mismatched(attempts[j])
        invariant arguments == DropFalsy(given)
        invariant handed == old(handed) + HandedOver(api, endpoints[..i + 1], DropFalsy(given))
      {
        AttemptAt(api, accepted, endpoints, given, i + 1);
        AttemptIgnoresFalsy(api, accepted, alternates[i], given);
        DropFalsyIdempotent(given);
        HandedOverNext(api, endpoints, i + 1, DropFalsy(given));
        var other := TryEndpoint(alternates[i]);
        assert other == attempts[i + 1];
        if !Mismatched(other) {
          SettledAt(attempts, i + 1);
          OutcomeTold(api, accepted, endpoints, given, other);
          return other;
        }
      }
      SettledAt(attempts, |attempts|);
      OutcomeTold(api, accepted, endpoints, given, r);
    }
  }

  /** The settled outcome is one of the attempts, every attempt before it was a version
      mismatch, and only when all were is a mismatch reported: then it is the first one. */
  lemma {:induction false} SettledOutcome(attempts: seq<Attempt>)
    requires attempts != []
    ensures var i := FirstSettled(attempts);
            var r := if i < |attempts| then attempts[i] else attempts[0];
            && r in attempts
            && (Mismatched(r) <==> forall a :: a in attempts ==> Mismatched(a))
            && (Mismatched(r) ==> r == attempts[0])
  {
    var i := FirstSettled(attempts);
    if i < |attempts| { assert attempts[i] in attempts; }
  }
}
