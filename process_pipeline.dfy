/**
 * The processing pipeline of src/TippingCanoe/Phperclip/Processes/ProcessManager.php:
 * a file is passed through every processor registered for its MIME type, in
 * registration order, each one receiving what the previous one returned;
 * anything but a file aborts the run.
 */
module ProcessPipeline {
  import opened Php

  /** What a processor hands back: an uploaded file, a stored file record, or anything else. */
  datatype Subject =
    | UploadedFile(mimeType: string, path: string)   // a Symfony `File`
    | StoredFile(mimeType: string, key: nat)         // a file model
    | NotAFile                                       // null, false, or any other value

  /** `validFileObject()`. */
  predicate IsFile(s: Subject)
  {
    !s.NotAFile?
  }

  /**
   * A processor: the MIME types `registeredMimes()` lists, and the hook for
   * each action it implements, keyed by the method's lower-cased name (PHP's
   * method table ignores ASCII case). A hook returns a subject or throws.
   */
  datatype ProcessorRecord = ProcessorRecord(mimes: seq<string>, hooks: map<string, Subject -> Result<Subject>>)

  /** Every hook is keyed by a lower-cased name, so `Lower(action)` reaches any of them. */
  type Processor = p: ProcessorRecord | LowerKeyed(p.hooks) witness ProcessorRecord([], map[])

  /** One step of the loop: the processor's hook for `action`, or no change if it has none. */
  function Apply(p: Processor, action: string, s: Subject): (r: Result<Subject>)
    ensures Lower(action) !in p.hooks ==> r == Ok(s)
  {
    if Lower(action) in p.hooks then p.hooks[Lower(action)](s) else Ok(s)
  }

  /** The processors, in registration order, that list `mime` (`array_filter` keeps the order). */
  function Registered(ps: seq<Processor>, mime: string): (r: seq<Processor>)
    ensures |r| <= |ps|
    ensures forall p :: p in r ==> mime in p.mimes
  {
    if ps == [] then []
    else (if mime in ps[0].mimes then [ps[0]] else []) + Registered(ps[1..], mime)
  }

  /** Exactly the processors listing `mime` are selected; none when no processor lists it. */
  lemma {:induction false} RegisteredMembers(ps: seq<Processor>, mime: string)
    ensures forall p :: p in Registered(ps, mime) <==> p in ps && mime in p.mimes
    ensures (forall p :: p in ps ==> mime !in p.mimes) ==> Registered(ps, mime) == []
  {
    if ps != [] {
      RegisteredMembers(ps[1..], mime);
      assert forall p :: p in ps <==> p == ps[0] || p in ps[1..];
    }
  }

  /** Registering more processors appends their matches after the earlier ones. */
  lemma {:induction false} RegisteredAppend(ps: seq<Processor>, qs: seq<Processor>, mime: string)
    ensures Registered(ps + qs, mime) == Registered(ps, mime) + Registered(qs, mime)
  {
    if ps != [] {
      var head := if mime in ps[0].mimes then [ps[0]] else [];
      calc {
        Registered(ps + qs, mime);
        { assert (ps + qs)[0] == ps[0]; }
        head + Registered((ps + qs)[1..], mime);
        { assert (ps + qs)[1..] == ps[1..] + qs; }
        head + Registered(ps[1..] + qs, mime);
        { RegisteredAppend(ps[1..], qs, mime); }
        head + (Registered(ps[1..], mime) + Registered(qs, mime));
      }
    } else {
      assert ps + qs == qs;
    }
  }

  /** `getProcessorsFor()`: null when no processors are configured (null or empty). */
  function ProcessorsFor(processors: Option<seq<Processor>>, mime: string): (r: Option<seq<Processor>>)
    ensures r.None? <==> processors.None? || processors.value == []
    ensures r.Some? ==> r.value == Registered(processors.value, mime)
  {
    if processors.None? || processors.value == [] then None
    else Some(Registered(processors.value, mime))
  }

  /**
   * The reference meaning of the loop: a left fold over `ps` that feeds each
   * processor the previous result, stops with null at the first non-file,
   * and stops with the exception of the first processor that throws.
   */
  function Run(ps: seq<Processor>, action: string, s: Subject): Result<Option<Subject>>
  {
    if ps == [] then Ok(Some(s))
    else
      match Apply(ps[0], action, s)
      case Err(e) => Err(e)
      case Ok(next) => if !IsFile(next) then Ok(None) else Run(ps[1..], action, next)
  }

  /** The whole of `dispatch()`: the file's type is read once, before any processor runs. */
  function Dispatched(processors: Option<seq<Processor>>, s: Subject, action: string): Result<Option<Subject>>
  {
    if !IsFile(s) then Ok(None)
    else match ProcessorsFor(processors, s.mimeType)
      case None => Ok(Some(s))
      case Some(ps) => Run(ps, action, s)
  }

  /** A helper for the loop: one unfolding of the fold, at position `i`. */
  lemma RunStep(ps: seq<Processor>, i: nat, action: string, s: Subject)
    requires i < |ps|
    ensures Run(ps[i..], action, s)
         == match Apply(ps[i], action, s)
            case Err(e) => Err(e)
            case Ok(next) => if IsFile(next) then Run(ps[i + 1..], action, next) else Ok(None)
  {
    assert ps[i..][0] == ps[i] && ps[i..][1..] == ps[i + 1..];
  }

  /** Running two lists of processors one after the other is running their concatenation. */
  lemma {:induction false} RunAppend(ps: seq<Processor>, qs: seq<Processor>, action: string, s: Subject)
    ensures Run(ps + qs, action, s)
         == match Run(ps, action, s) case Ok(Some(t)) => Run(qs, action, t) case other => other
  {
    if ps != [] {
      RunStep(ps + qs, 0, action, s);
      assert (ps + qs)[0] == ps[0] && (ps + qs)[1..] == ps[1..] + qs;
      assert ps[0..] == ps && (ps + qs)[0..] == ps + qs;
      RunStep(ps, 0, action, s);
      var step := Apply(ps[0], action, s);
      if step.Ok? && IsFile(step.value) {
        RunAppend(ps[1..], qs, action, step.value);
      }
    } else {
      assert ps + qs == qs;
    }
  }

  /**
   * Once a processor returns something other than a file, the run is null
   * whatever processors follow it: they are never consulted.
   */
  lemma {:induction false} RunAbortsAtNonFile(ps: seq<Processor>, rest: seq<Processor>, action: string, s: Subject)
    requires ps != []
    requires Run(ps[..|ps| - 1], action, s).Ok? && Run(ps[..|ps| - 1], action, s).value.Some?
    requires Apply(ps[|ps| - 1], action, Run(ps[..|ps| - 1], action, s).value.value).Ok?
    requires !IsFile(Apply(ps[|ps| - 1], action, Run(ps[..|ps| - 1], action, s).value.value).value)
    ensures Run(ps + rest, action, s) == Ok(None)
  {
    var front, last := ps[..|ps| - 1], ps[|ps| - 1];
    assert ps + rest == front + ([last] + rest);
    RunAppend(front, [last] + rest, action, s);
  }

  /**
   * Once a processor throws, the run throws that exception whatever
   * processors follow it: they are never consulted.
   */
  lemma {:induction false} RunStopsAtThrow(ps: seq<Processor>, rest: seq<Processor>, action: string, s: Subject)
    requires ps != []
    requires Run(ps[..|ps| - 1], action, s).Ok? && Run(ps[..|ps| - 1], action, s).value.Some?
    requires Apply(ps[|ps| - 1], action, Run(ps[..|ps| - 1], action, s).value.value).Err?
    ensures Run(ps + rest, action, s)
         == Err(Apply(ps[|ps| - 1], action, Run(ps[..|ps| - 1], action, s).value.value).error)
  {
    var front, last := ps[..|ps| - 1], ps[|ps| - 1];
    assert ps + rest == front + ([last] + rest);
    RunAppend(front, [last] + rest, action, s);
  }

  /** Processors that do not implement the action leave a file as it is. */
  lemma {:induction false} RunWithoutHooks(ps: seq<Processor>, action: string, s: Subject)
    requires IsFile(s)
    requires forall p :: p in ps ==> Lower(action) !in p.hooks
    ensures Run(ps, action, s) == Ok(Some(s))
  {
    if ps != [] {
      assert ps[0] in ps;
      assert forall p :: p in ps[1..] ==> p in ps;
      RunWithoutHooks(ps[1..], action, s);
    }
  }

  /** A run that completes always yields a file. */
  lemma {:induction false} RunYieldsFile(ps: seq<Processor>, action: string, s: Subject)
    requires IsFile(s)
    ensures Run(ps, action, s).Ok? && Run(ps, action, s).value.Some? ==> IsFile(Run(ps, action, s).value.value)
  {
    if ps != [] {
      var step := Apply(ps[0], action, s);
      if step.Ok? && IsFile(step.value) {
        RunYieldsFile(ps[1..], action, step.value);
      }
    }
  }

  /** The action name is matched as `method_exists` matches it: without regard to ASCII case. */
  lemma {:induction false} RunIgnoresCase(ps: seq<Processor>, action: string, other: string, s: Subject)
    requires Lower(other) == Lower(action)
    ensures Run(ps, action, s) == Run(ps, other, s)
  {
    if ps != [] {
      var step := Apply(ps[0], action, s);
      if step.Ok? && IsFile(step.value) {
        RunIgnoresCase(ps[1..], action, other, step.value);
      }
    }
  }

  /**
   * With no processor configured, or none registered for the file's type,
   * `dispatch()` hands the file back unchanged; a non-file gives null.
   */
  lemma DispatchedUnmatched(processors: Option<seq<Processor>>, s: Subject, action: string)
    requires IsFile(s)
    requires processors.Some? ==> forall p :: p in processors.value ==> s.mimeType !in p.mimes
    ensures Dispatched(processors, s, action) == Ok(Some(s))
  {
    if processors.Some? {
      RegisteredMembers(processors.value, s.mimeType);
    }
  }

  class ProcessManager {
    const processors: Option<seq<Processor>>

    /** The processors default to null. */
    constructor (processors: Option<seq<Processor>> := None)
      ensures this.processors == processors
    {
      this.processors := processors;
    }

    /** `dispatch()`: the file a run yields, null, or the exception a processor throws. */
    method Dispatch(file: Subject, action: string) returns (r: Result<Option<Subject>>)
      ensures r == Dispatched(processors, file, action)
      ensures r.Ok? && r.value.Some? ==> IsFile(r.value.value)
    {
      if !IsFile(file) {
        return Ok(None);
      }
      var mimeType := file.mimeType;
      var selected := ProcessorsFor(processors, mimeType);
      if selected.None? || selected.value == [] {
        return Ok(Some(file));
      }
      r := RunAll(selected.value, action, file);
      RunYieldsFile(selected.value, action, file);
    }

    /** The `foreach` of `dispatch()` over the selected processors. */
    method RunAll(ps: seq<Processor>, action: string, file: Subject) returns (r: Result<Option<Subject>>)
      requires IsFile(file)
      ensures r == Run(ps, action, file)
    {
      var current := file;
      var i := 0;
      while i < |ps|
        invariant 0 <= i <= |ps|
        invariant IsFile(current)
        invariant Run(ps, action, file) == Run(ps[i..], action, current)
      {
        RunStep(ps, i, action, current);
        var name := Lower(action);
        var out := Ok(current);
        if name in ps[i].hooks {
          out := ps[i].hooks[name](current);
        }
        assert out == Apply(ps[i], action, current);
        if out.Err? {
          return Err(out.error);
        }
        current := out.value;
        if !IsFile(current) {
          return Ok(None);
        }
        i := i + 1;
      }
      assert ps[i..] == [];
      r := Ok(Some(current));
    }
  }
}
