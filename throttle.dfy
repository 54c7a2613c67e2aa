/** The `throttle(delay_s)` decorator of src/throttle.py. Every decorated
    function shares one process-wide dictionary `funcs` from a function's
    `__name__` to the earliest time its next call may start. The clock and
    `time.sleep` are parameters: a call is given the time it is made and the
    time the wrapped function returns, and reports how long it slept. */
module Throttle {

  /** What the wrapped function did: returned a value, or raised. */
  datatype Outcome<R> = Returned(value: R) | Raised

  /** How long a call of `name` made at `now` sleeps before running: until
      the recorded deadline if there is one in the future, otherwise not at all. */
  function SleepFor(funcs: map<string, real>, name: string, now: real): (s: real)
    ensures 0.0 <= s
    ensures name !in funcs ==> s == 0.0
    ensures name in funcs ==> funcs[name] <= now + s
    ensures 0.0 < s ==> name in funcs && now + s == funcs[name]
  {
    if name in funcs && funcs[name] - now > 0.0 then funcs[name] - now else 0.0
  }

  /** The dictionary after the call: a deadline of completion time plus the
      delay for `name` when the wrapped function returned, nothing new when
      it raised (the assignment comes after the call). */
  function Record<R>(funcs: map<string, real>, name: string, delayS: real, outcome: Outcome<R>, finishedAt: real)
    : (r: map<string, real>)
    ensures outcome.Returned? ==> r.Keys == funcs.Keys + {name} && r[name] == finishedAt + delayS
    ensures outcome.Raised? ==> r == funcs
    ensures forall n :: n in funcs && n != name ==> n in r && r[n] == funcs[n]
  {
    if outcome.Returned? then funcs[name := finishedAt + delayS] else funcs
  }

  /** The process-wide state of `throttle`: the `funcs` attribute. */
  class Registry {
    var funcs: map<string, real>

    /** Before any decorated call, `throttle` has no `funcs` attribute. */
    constructor ()
      ensures funcs == map[]
    {
      funcs := map[];
    }

    /** One call of a decorated function named `name`, made at `now`: sleep
        if needed, run the function (which returns `outcome` at
        `finishedAt`), record the next deadline, pass the result through. */
    method Call<R>(name: string, delayS: real, now: real, outcome: Outcome<R>, finishedAt: real)
      returns (slept: real, result: Outcome<R>)
      modifies this
      ensures slept == SleepFor(old(funcs), name, now)
      ensures result == outcome
      ensures funcs == Record(old(funcs), name, delayS, outcome, finishedAt)
    {
      slept := 0.0;
      if name in funcs {
        var s := funcs[name] - now;
        if s > 0.0 {
          slept := s;
        }
      }
      result := outcome;
      if outcome.Returned? {
        funcs := funcs[name := finishedAt + delayS];
      }
    }
  }

  /** After a call of `name` returns at `finishedAt`, the next call of the
      same name starts no earlier than `finishedAt + delayS`, however soon it
      is made; a call of another name is not delayed by it. */
  lemma SpacedCalls<R>(funcs: map<string, real>, name: string, other: string, delayS: real,
                       v: R, finishedAt: real, next: real)
    requires other != name
    ensures var after := Record(funcs, name, delayS, Returned(v), finishedAt);
            next + SleepFor(after, name, next) >= finishedAt + delayS
            && SleepFor(after, other, next) == SleepFor(funcs, other, next)
  {
  }

  /** The slot is keyed by `__name__` alone: two different functions with the
      same name (the two `tweet` methods) wait on each other, with the delay
      of whichever ran last. */
  lemma SharedSlot(funcs: map<string, real>, delayA: real, delayB: real, finishedAt: real, next: real)
    requires delayA < delayB && next < finishedAt + delayA
    ensures var afterA := Record(funcs, "tweet", delayA, Returned(true), finishedAt);
            var afterB := Record(funcs, "tweet", delayB, Returned(true), finishedAt);
            next + SleepFor(afterA, "tweet", next) == finishedAt + delayA
            && next + SleepFor(afterB, "tweet", next) == finishedAt + delayB
  {
  }
}
