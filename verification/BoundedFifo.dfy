/** The simple queue that both rings refine: a sequence with a bound. */
module BoundedFifo {
  import opened Wrappers

  datatype Request<T> = Put(value: T) | Take

  datatype Answer<T> = Stored(ok: bool) | Taken(result: Option<T>)

  function After<T>(capacity: nat, held: seq<T>, request: Request<T>): seq<T> {
    match request
    case Put(v) => if |held| < capacity then held + [v] else held
    case Take => if held == [] then held else held[1..]
  }

  function AnswerTo<T>(capacity: nat, held: seq<T>, request: Request<T>): Answer<T> {
    match request
    case Put(_) => Stored(|held| < capacity)
    case Take => Taken(if held == [] then None else Some(held[0]))
  }

  function Answers<T>(capacity: nat, held: seq<T>, requests: seq<Request<T>>): (answers: seq<Answer<T>>)
    decreases |requests|
  {
    if requests == [] then []
    else [AnswerTo(capacity, held, requests[0])]
         + Answers(capacity, After(capacity, held, requests[0]), requests[1..])
  }

  function Held<T>(capacity: nat, held: seq<T>, requests: seq<Request<T>>): seq<T>
    decreases |requests|
  {
    if requests == [] then held
    else Held(capacity, After(capacity, held, requests[0]), requests[1..])
  }

  /** Serving one more request at the end. */
  lemma {:induction false} AnswersSnoc<T>(
    capacity: nat, held: seq<T>, requests: seq<Request<T>>, last: Request<T>)
    ensures var now := Held(capacity, held, requests);
            && Answers(capacity, held, requests + [last])
               == Answers(capacity, held, requests) + [AnswerTo(capacity, now, last)]
            && Held(capacity, held, requests + [last]) == After(capacity, now, last)
    decreases |requests|
  {
    if requests == [] {
      assert requests + [last] == [last] && [last][1..] == [];
    } else {
      assert (requests + [last])[1..] == requests[1..] + [last];
      AnswersSnoc(capacity, After(capacity, held, requests[0]), requests[1..], last);
    }
  }

  // ----- what the answers mean -----

  /** The values of the requests that were answered with "stored", and the values handed out. */
  function StoredValues<T>(requests: seq<Request<T>>, answers: seq<Answer<T>>): seq<T>
    requires |requests| == |answers|
  {
    if requests == [] then []
    else (if requests[0].Put? && answers[0] == Stored(true) then [requests[0].value] else [])
         + StoredValues(requests[1..], answers[1..])
  }

  function TakenValues<T>(answers: seq<Answer<T>>): seq<T> {
    if answers == [] then []
    else (if answers[0].Taken? && answers[0].result.Some? then [answers[0].result.value] else [])
         + TakenValues(answers[1..])
  }

  /** One answer after `stored` was stored and `taken` handed out: a value is stored exactly
      below the capacity, and what is handed out is the oldest value not handed out yet. */
  ghost predicate FifoAnswer<T>(capacity: nat, stored: seq<T>, taken: seq<T>, request: Request<T>, answer: Answer<T>) {
    match answer
    case Stored(ok) => request.Put? && (ok <==> |stored| - |taken| < capacity)
    case Taken(None) => request.Take? && |stored| == |taken|
    case Taken(Some(v)) => request.Take? && |taken| < |stored| && v == stored[|taken|]
  }

  /** Answers of a first-in first-out queue with a bound, by the requests and answers alone. */
  ghost predicate IsFifo<T>(capacity: nat, requests: seq<Request<T>>, answers: seq<Answer<T>>) {
    && |answers| == |requests|
    && forall n :: 0 <= n < |requests| ==>
         FifoAnswer(capacity, StoredValues(requests[..n], answers[..n]), TakenValues(answers[..n]),
                    requests[n], answers[n])
  }

  lemma {:induction false} StoredValuesSnoc<T>(
    requests: seq<Request<T>>, answers: seq<Answer<T>>, request: Request<T>, answer: Answer<T>)
    requires |requests| == |answers|
    ensures StoredValues(requests + [request], answers + [answer])
         == StoredValues(requests, answers) + (if request.Put? && answer == Stored(true) then [request.value] else [])
  {
    if requests == [] {
      assert requests + [request] == [request] && answers + [answer] == [answer];
    } else {
      assert (requests + [request])[1..] == requests[1..] + [request];
      assert (answers + [answer])[1..] == answers[1..] + [answer];
      StoredValuesSnoc(requests[1..], answers[1..], request, answer);
    }
  }

  lemma {:induction false} TakenValuesSnoc<T>(answers: seq<Answer<T>>, answer: Answer<T>)
    ensures TakenValues(answers + [answer])
         == TakenValues(answers) + (if answer.Taken? && answer.result.Some? then [answer.result.value] else [])
  {
    if answers == [] {
      assert answers + [answer] == [answer];
    } else {
      assert (answers + [answer])[1..] == answers[1..] + [answer];
      TakenValuesSnoc(answers[1..], answer);
    }
  }

  /** Nothing is lost, duplicated or reordered: the values handed out, followed by those still
      held, are the values stored, in order. */
  lemma {:induction false} TakenThenHeld<T>(capacity: nat, requests: seq<Request<T>>)
    ensures var answers := Answers(capacity, [], requests);
            && |answers| == |requests|
            && TakenValues(answers) + Held(capacity, [], requests) == StoredValues(requests, answers)
    decreases |requests|
  {
    if requests != [] {
      var before, last := requests[..|requests| - 1], requests[|requests| - 1];
      assert requests == before + [last];
      TakenThenHeld(capacity, before);
      AnswersSnoc(capacity, [], before, last);
      var answers, now := Answers(capacity, [], before), Held(capacity, [], before);
      StoredValuesSnoc(before, answers, last, AnswerTo(capacity, now, last));
      TakenValuesSnoc(answers, AnswerTo(capacity, now, last));
    }
  }

  lemma {:induction false} AnswersOfPrefix<T>(capacity: nat, requests: seq<Request<T>>, n: nat)
    requires n < |requests|
    ensures |Answers(capacity, [], requests)| == |requests|
    ensures Answers(capacity, [], requests)[..n] == Answers(capacity, [], requests[..n])
    ensures Answers(capacity, [], requests)[n] == AnswerTo(capacity, Held(capacity, [], requests[..n]), requests[n])
    decreases |requests|
  {
    var before, last := requests[..|requests| - 1], requests[|requests| - 1];
    assert requests == before + [last];
    AnswersSnoc(capacity, [], before, last);
    TakenThenHeld(capacity, before);
    if n < |before| {
      AnswersOfPrefix(capacity, before, n);
      assert requests[..n] == before[..n];
    } else {
      assert requests[..n] == before;
    }
  }

  lemma AnswersAreFifo<T>(capacity: nat, requests: seq<Request<T>>)
    ensures IsFifo(capacity, requests, Answers(capacity, [], requests))
  {
    var answers := Answers(capacity, [], requests);
    TakenThenHeld(capacity, requests);
    forall n | 0 <= n < |requests|
      ensures FifoAnswer(capacity, StoredValues(requests[..n], answers[..n]), TakenValues(answers[..n]),
                         requests[n], answers[n])
    {
      AnswersOfPrefix(capacity, requests, n);
      TakenThenHeld(capacity, requests[..n]);
    }
  }
}
