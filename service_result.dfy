/** ServiceResult and ServiceResult<T> (identical in
    Unifi.IpManager/Models/DTO/ServiceResult.cs and
    unifi.ipmanager/Models/DTO/ServiceResult.cs): a success flag, an
    append-only error list, a message list, and for the generic form a data
    value. */
module ServiceResults {
  import opened Wrappers

  /** A System.Exception, seen only through its Message. */
  datatype Exception = Exception(message: string)

  /** The observable state of a result object. Data is None until
      MarkSuccessful(data) has stored one (C#'s default(T)). */
  datatype Outcome<T> = Outcome(success: bool, errors: seq<string>, messages: seq<string>, data: Option<T>)

  /** The state of `new ServiceResult<T>()`. */
  function Fresh<T>(): Outcome<T> {
    Outcome(false, [], [], None)
  }

  /** A result built with an object initializer that sets only Success and
      Errors: `new ServiceResult<T> { Success = .., Errors = .. }`. */
  function Failed<T>(errors: seq<string>): Outcome<T> {
    Outcome(false, errors, [], None)
  }

  /** The calls that change a result. Every MarkFailed overload appends a
      list: one message, ex.Message, or the given errors. */
  datatype Mark<T> = Succeeded | SucceededWith(value: T) | FailedWith(errors: seq<string>)

  /** The effect of one call. */
  function Step<T>(o: Outcome<T>, m: Mark<T>): Outcome<T> {
    match m
    case Succeeded => o.(success := true)
    case SucceededWith(v) => o.(success := true, data := Some(v))
    case FailedWith(es) => o.(success := false, errors := o.errors + es)
  }

  /** The effect of a sequence of calls, in order. */
  function Run<T>(o: Outcome<T>, ms: seq<Mark<T>>): Outcome<T>
    decreases |ms|
  {
    if |ms| == 0 then o else Run(Step(o, ms[0]), ms[1..])
  }

  /** The errors the failing calls append, in order. */
  function AppendedErrors<T>(ms: seq<Mark<T>>): seq<string>
    decreases |ms|
  {
    if |ms| == 0 then [] else (if ms[0].FailedWith? then ms[0].errors else []) + AppendedErrors(ms[1..])
  }

  /** Errors only grow: after any calls they are the old errors followed by
      every appended list in call order; messages never change. */
  lemma {:induction false} RunAppendsErrors<T>(o: Outcome<T>, ms: seq<Mark<T>>)
    ensures Run(o, ms).errors == o.errors + AppendedErrors(ms)
    ensures Run(o, ms).messages == o.messages
    decreases |ms|
  {
    if |ms| > 0 {
      var appended := if ms[0].FailedWith? then ms[0].errors else [];
      var o1 := Step(o, ms[0]);
      assert o1.errors == o.errors + appended && o1.messages == o.messages;
      RunAppendsErrors(o1, ms[1..]);
      assert o.errors + appended + AppendedErrors(ms[1..]) == o.errors + AppendedErrors(ms);
    }
  }

  /** The flag is decided by the last call alone: a success after failures
      reports success while still carrying their errors. */
  lemma {:induction false} RunLastMarkWins<T>(o: Outcome<T>, ms: seq<Mark<T>>)
    requires |ms| > 0
    ensures Run(o, ms).success <==> !ms[|ms| - 1].FailedWith?
    decreases |ms|
  {
    if |ms| > 1 {
      RunLastMarkWins(Step(o, ms[0]), ms[1..]);
    }
  }

  /** Data changes only through MarkSuccessful(data). */
  lemma {:induction false} RunKeepsDataWithoutValue<T>(o: Outcome<T>, ms: seq<Mark<T>>)
    requires forall k :: 0 <= k < |ms| ==> !ms[k].SucceededWith?
    ensures Run(o, ms).data == o.data
    decreases |ms|
  {
    if |ms| > 0 {
      RunKeepsDataWithoutValue(Step(o, ms[0]), ms[1..]);
    }
  }

  /** The mutable result object. */
  class ServiceResult<T> {
    var success: bool
    var errors: seq<string>
    var messages: seq<string>
    var data: Option<T>

    function State(): Outcome<T>
      reads this
    {
      Outcome(success, errors, messages, data)
    }

    /** Errors and Messages start empty; Success starts false. */
    constructor()
      ensures State() == Fresh()
    {
      success := false;
      errors := [];
      messages := [];
      data := None;
    }

    method MarkSuccessful()
      modifies this
      ensures State() == Step(old(State()), Succeeded)
    {
      success := true;
    }

    /** ServiceResult<T>.MarkSuccessful(T): the base call, then Data. */
    method MarkSuccessfulWith(value: T)
      modifies this
      ensures State() == Step(old(State()), SucceededWith(value))
    {
      MarkSuccessful();
      data := Some(value);
    }

    /** MarkFailed(Exception): appends ex.Message. */
    method MarkFailedWithException(ex: Exception)
      modifies this
      ensures State() == Step(old(State()), FailedWith([ex.message]))
    {
      errors := errors + [ex.message];
      success := false;
    }

    /** MarkFailed(string): appends the message. */
    method MarkFailed(error: string)
      modifies this
      ensures State() == Step(old(State()), FailedWith([error]))
    {
      errors := errors + [error];
      success := false;
    }

    /** MarkFailed(IEnumerable<string>): appends them all, and fails even
        when there are none. */
    method MarkFailedWithAll(es: seq<string>)
      modifies this
      ensures State() == Step(old(State()), FailedWith(es))
    {
      errors := errors + es;
      success := false;
    }
  }
}
