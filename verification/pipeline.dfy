/**
 * The filter pipeline: an ordered list of steps over a mail value, each ending
 * in one of three actions, run until one of them accepts or rejects the mail.
 * The pipeline is generic in the mail; a step is a function from the mail it
 * receives to its action and the mail as the step leaves it.
 */
module Pipeline {
  import opened Common
  import opened Smtp

  /** What a step decides. */
  datatype Action = Continue | Ignore | Reject(error: Error)

  /** `true` continues, `false` accepts the mail as it is. */
  function FromBool(b: bool): (a: Action)
    ensures !a.Reject?
    ensures a.Continue? <==> b
  {
    if b then Continue else Ignore
  }

  /** A present unit continues, an absent one accepts the mail as it is. */
  function FromOption(o: Option<()>): (a: Action)
    ensures a == FromBool(o.Some?)
  {
    if o.Some? then Continue else Ignore
  }

  /** Success continues, a failure rejects with its error. */
  function FromResult(r: Result<(), Error>): (a: Action)
    ensures !a.Ignore?
    ensures a.Continue? <==> r.Ok?
    ensures a.Reject? ==> a.error == r.error
  {
    match r
    case Ok(_) => Continue
    case Err(e) => Reject(e)
  }

  type Step<!M> = M -> (Action, M)

  /** How a run ends: the mail is accepted in a given state, or rejected with an error. */
  datatype Verdict<M> = Accepted(mail: M) | Rejected(error: Error)

  /** Running `steps` in order on `m`: the specification of `Filter.Process`. */
  function Run<M>(steps: seq<Step<M>>, m: M): (r: Verdict<M>)
    ensures r.Rejected? ==> !AllContinue(steps, m)
    ensures steps == [] ==> r == Accepted(m)
    decreases |steps|
  {
    if steps == [] then Accepted(m)
    else
      var out := steps[0](m);
      match out.0
      case Continue => Run(steps[1..], out.1)
      case Ignore => Accepted(out.1)
      case Reject(e) => Rejected(e)
  }

  /** The mail after every step of `steps` has been applied in order. */
  function Apply<M>(steps: seq<Step<M>>, m: M): M
    decreases |steps|
  {
    if steps == [] then m else Apply(steps[1..], steps[0](m).1)
  }

  /** Every step of `steps`, run in order from `m`, decides to continue. */
  predicate AllContinue<M>(steps: seq<Step<M>>, m: M)
    decreases |steps|
  {
    steps == [] || (steps[0](m).0.Continue? && AllContinue(steps[1..], steps[0](m).1))
  }

  /** When every step continues, the mail is accepted in the state the last step left it. */
  lemma {:induction false} RunAllContinue<M>(steps: seq<Step<M>>, m: M)
    requires AllContinue(steps, m)
    ensures Run(steps, m) == Accepted(Apply(steps, m))
    decreases |steps|
  {
    if steps != [] {
      RunAllContinue(steps[1..], steps[0](m).1);
    }
  }

  /** After a prefix of steps that all continue, the run goes on with the rest from the state they left. */
  lemma {:induction false} RunAfterPrefix<M>(a: seq<Step<M>>, b: seq<Step<M>>, m: M)
    requires AllContinue(a, m)
    ensures Run(a + b, m) == Run(b, Apply(a, m))
    decreases |a|
  {
    if a == [] {
      assert a + b == b;
    } else {
      assert (a + b)[0] == a[0];
      assert (a + b)[1..] == a[1..] + b;
      RunAfterPrefix(a[1..], b, a[0](m).1);
    }
  }

  /** A step that ignores accepts the mail as it leaves it, whatever steps follow. */
  lemma RunStopsAtIgnore<M>(a: seq<Step<M>>, s: Step<M>, rest: seq<Step<M>>, m: M)
    requires AllContinue(a, m) && s(Apply(a, m)).0.Ignore?
    ensures Run(a + [s] + rest, m) == Accepted(s(Apply(a, m)).1)
  {
    assert a + [s] + rest == a + ([s] + rest);
    RunAfterPrefix(a, [s] + rest, m);
  }

  /** A step that rejects ends the run with its error, whatever steps follow. */
  lemma RunStopsAtReject<M>(a: seq<Step<M>>, s: Step<M>, rest: seq<Step<M>>, m: M)
    requires AllContinue(a, m) && s(Apply(a, m)).0.Reject?
    ensures Run(a + [s] + rest, m) == Rejected(s(Apply(a, m)).0.error)
  {
    assert a + [s] + rest == a + ([s] + rest);
    RunAfterPrefix(a, [s] + rest, m);
  }

  /** An ordered list of filter steps. */
  class Filter<M> {
    var filters: seq<Step<M>>

    constructor ()
      ensures filters == []
    {
      filters := [];
    }

    /** Appends a step whose outcome `f` returns and `into` converts to an action. */
    method Then<V>(f: M -> (V, M), into: V -> Action)
      modifies this
      ensures |filters| == |old(filters)| + 1 && filters[..|old(filters)|] == old(filters)
      ensures forall m :: filters[|old(filters)|](m) == (into(f(m).0), f(m).1)
    {
      var step := (m: M) => (into(f(m).0), f(m).1);
      filters := filters + [step];
    }

    /** Appends a step that continues on success and rejects with the error on failure. */
    method AndThen(f: M -> (Result<(), Error>, M))
      modifies this
      ensures |filters| == |old(filters)| + 1 && filters[..|old(filters)|] == old(filters)
      ensures forall m :: filters[|old(filters)|](m) == (FromResult(f(m).0), f(m).1)
    {
      Then(f, FromResult);
    }

    /** Appends a step that changes the mail and always continues. */
    method Map(f: M -> M)
      modifies this
      ensures |filters| == |old(filters)| + 1 && filters[..|old(filters)|] == old(filters)
      ensures forall m :: filters[|old(filters)|](m) == (Continue, f(m))
    {
      Then((m: M) => (true, f(m)), FromBool);
    }

    /**
     * Runs the steps in order on `mail`. An accepted mail is decomposed with
     * `intoParts`; a rejection yields the rendered reply line.
     */
    method Process<P>(mail: M, intoParts: M -> P) returns (r: Result<P, string>)
      ensures Run(filters, mail).Accepted? ==> r == Ok(intoParts(Run(filters, mail).mail))
      ensures Run(filters, mail).Rejected? ==> r == Err(Render(Run(filters, mail).error))
    {
      var e: Option<Error> := None;
      var m := mail;
      for idx := 0 to |filters|
        invariant e.None?
        invariant Run(filters, mail) == Run(filters[idx..], m)
      {
        assert filters[idx..][0] == filters[idx] && filters[idx..][1..] == filters[idx + 1..];
        var out := filters[idx](m);
        m := out.1;
        match out.0
        case Continue =>
        case Ignore =>
          return Ok(intoParts(m));
        case Reject(err) =>
          e := Some(err);
          break;
      }
      if e.Some? {
        r := Err(Render(e.value));
      } else {
        r := Ok(intoParts(m));
      }
    }
  }
}
