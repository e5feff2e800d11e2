/**
 * The processor manager of src/Atrauzzi/Phperclip/Processor/Manager.php:
 * `dispatch()` calls the named action on every processor registered for the
 * file's MIME type, in registration order, with the same arguments each time,
 * and ignores what the calls return; an exception thrown by a call ends the
 * loop and leaves `dispatch()`. `Dispatch` returns the list of calls it
 * makes and the outcome.
 */
module ProcessorDispatch {
  import opened Php
  import opened PhpArray
  import opened Records

  /**
   * A processor: the MIME types `registeredMimes()` lists and, for each action
   * it implements, keyed by the method's lower-cased name (PHP's method table
   * ignores ASCII case), whether a call with given arguments returns or throws.
   */
  datatype ProcessorRecord = ProcessorRecord(mimes: seq<string>, methods: map<string, (nat, FileMeta, Array) -> Option<Error>>)

  /** Every method is keyed by a lower-cased name, so `Lower(action)` reaches any of them. */
  type Processor = p: ProcessorRecord | LowerKeyed(p.methods) witness ProcessorRecord([], map[])

  /** One call `$processor->$action($fileResource, $fileMeta, $options)`; `position` is the processor's index. */
  datatype Invocation = Invocation(position: nat, action: string, resource: nat, meta: FileMeta, options: Array)

  /** `getProcessorsFor()` keeps `p`, and `method_exists($p, $action)` holds. */
  predicate Handles(p: Processor, mime: string, action: string)
  {
    mime in p.mimes && Lower(action) in p.methods
  }

  /** The exception a call of `action` on `p` throws, if any. */
  function Outcome(p: Processor, action: string, resource: nat, meta: FileMeta, options: Array): Option<Error>
  {
    if Lower(action) in p.methods then p.methods[Lower(action)](resource, meta, options) else None
  }

  /** How a recorded call ended; a position outside `ps` names no processor and no call. */
  function CallOutcome(ps: seq<Processor>, c: Invocation): Option<Error>
  {
    if c.position < |ps| then Outcome(ps[c.position], c.action, c.resource, c.meta, c.options) else None
  }

  /**
   * The reference meaning of the loop from position `i` on: the calls made
   * and the first exception thrown, if any.
   */
  function Planned(ps: seq<Processor>, i: nat, action: string, resource: nat, meta: FileMeta, options: Array)
    : (seq<Invocation>, Option<Error>)
    decreases |ps| - i
  {
    if i >= |ps| then ([], None)
    else if !Handles(ps[i], meta.mimeType, action) then Planned(ps, i + 1, action, resource, meta, options)
    else
      var c := Invocation(i, action, resource, meta, options);
      var out := Outcome(ps[i], action, resource, meta, options);
      if out.Some? then ([c], out)
      else
        var rest := Planned(ps, i + 1, action, resource, meta, options);
        ([c] + rest.0, rest.1)
  }

  /** Every planned call carries the dispatch's arguments and goes to a handling processor at `i` or later, in order. */
  lemma {:induction false} PlannedCalls(ps: seq<Processor>, i: nat, action: string, resource: nat, meta: FileMeta, options: Array)
    requires i <= |ps|
    ensures var cs := Planned(ps, i, action, resource, meta, options).0;
      && (forall c :: c in cs ==>
            && c == Invocation(c.position, action, resource, meta, options)
            && i <= c.position < |ps|
            && Handles(ps[c.position], meta.mimeType, action))
      && (forall k, l :: 0 <= k < l < |cs| ==> cs[k].position < cs[l].position)
      && |cs| <= |ps| - i
    decreases |ps| - i
  {
    if i < |ps| {
      PlannedCalls(ps, i + 1, action, resource, meta, options);
    }
  }

  /** Only the last planned call can throw, and its outcome is the outcome of the loop. */
  lemma {:induction false} PlannedOutcome(ps: seq<Processor>, i: nat, action: string, resource: nat, meta: FileMeta, options: Array)
    requires i <= |ps|
    ensures var cs := Planned(ps, i, action, resource, meta, options).0;
      forall k :: 0 <= k < |cs| - 1 ==> CallOutcome(ps, cs[k]).None?
    ensures var (cs, thrown) := Planned(ps, i, action, resource, meta, options);
      thrown == if cs == [] then None else CallOutcome(ps, cs[|cs| - 1])
    decreases |ps| - i
  {
    if i < |ps| {
      PlannedOutcome(ps, i + 1, action, resource, meta, options);
      var (cs, thrown) := Planned(ps, i, action, resource, meta, options);
      var rest := Planned(ps, i + 1, action, resource, meta, options);
      if Handles(ps[i], meta.mimeType, action) && Outcome(ps[i], action, resource, meta, options).None? {
        var c := Invocation(i, action, resource, meta, options);
        assert cs == [c] + rest.0;
        assert CallOutcome(ps, c).None?;
        if rest.0 != [] {
          assert cs[|cs| - 1] == rest.0[|rest.0| - 1];
        } else {
          assert cs[|cs| - 1] == c && rest.1 == None;
        }
        forall k | 0 <= k < |cs| - 1 ensures CallOutcome(ps, cs[k]).None? {
          if k > 0 {
            assert cs[k] == rest.0[k - 1];
          }
        }
      }
    }
  }

  /**
   * Every handling processor from `i` on is called, unless an earlier call
   * threw: then exactly those before the throwing one are.
   */
  lemma {:induction false} PlannedComplete(ps: seq<Processor>, i: nat, action: string, resource: nat, meta: FileMeta, options: Array)
    requires i <= |ps|
    ensures var (cs, thrown) := Planned(ps, i, action, resource, meta, options);
      forall j :: i <= j < |ps| && Handles(ps[j], meta.mimeType, action) ==>
        (thrown.None? || (cs != [] && j < cs[|cs| - 1].position)) ==>
        Invocation(j, action, resource, meta, options) in cs
    decreases |ps| - i
  {
    if i < |ps| {
      PlannedComplete(ps, i + 1, action, resource, meta, options);
      PlannedCalls(ps, i + 1, action, resource, meta, options);
      var (cs, thrown) := Planned(ps, i, action, resource, meta, options);
      var rest := Planned(ps, i + 1, action, resource, meta, options);
      if Handles(ps[i], meta.mimeType, action) && Outcome(ps[i], action, resource, meta, options).None? {
        assert cs == [Invocation(i, action, resource, meta, options)] + rest.0;
        if rest.0 != [] {
          assert cs[|cs| - 1] == rest.0[|rest.0| - 1];
        }
      }
    }
  }

  class Manager {
    const processors: seq<Processor>

    /** The processors default to none. */
    constructor (processors: seq<Processor> := [])
      ensures this.processors == processors
    {
      this.processors := processors;
    }

    /**
     * `dispatch()`: processor `i` is called when it handles the file's type
     * and the action and no earlier call threw, always with the same
     * arguments; the calls follow registration order, only the last one can
     * have thrown, and its exception is the one `dispatch()` throws.
     */
    method Dispatch(resource: nat, meta: FileMeta, action: string, options: Array)
      returns (calls: seq<Invocation>, thrown: Option<Error>)
      ensures (calls, thrown) == Planned(processors, 0, action, resource, meta, options)
      ensures forall c :: c in calls ==>
        && c == Invocation(c.position, action, resource, meta, options)
        && c.position < |processors|
        && Handles(processors[c.position], meta.mimeType, action)
      ensures forall k, l :: 0 <= k < l < |calls| ==> calls[k].position < calls[l].position
      ensures forall k :: 0 <= k < |calls| - 1 ==> CallOutcome(processors, calls[k]).None?
      ensures thrown == if calls == [] then None else CallOutcome(processors, calls[|calls| - 1])
      ensures forall i :: 0 <= i < |processors| && Handles(processors[i], meta.mimeType, action) ==>
        (thrown.None? || (calls != [] && i < calls[|calls| - 1].position)) ==>
        Invocation(i, action, resource, meta, options) in calls
      ensures |calls| <= |processors|
      ensures processors == [] ==> calls == [] && thrown == None
    {
      calls, thrown := CallHandlers(resource, meta, action, options);
      PlannedCalls(processors, 0, action, resource, meta, options);
      PlannedOutcome(processors, 0, action, resource, meta, options);
      PlannedComplete(processors, 0, action, resource, meta, options);
    }

    /** The `foreach` of `dispatch()`: the handling processors are called in turn until one throws. */
    method CallHandlers(resource: nat, meta: FileMeta, action: string, options: Array)
      returns (calls: seq<Invocation>, thrown: Option<Error>)
      ensures (calls, thrown) == Planned(processors, 0, action, resource, meta, options)
    {
      var mimeType := meta.mimeType;
      calls, thrown := [], None;
      var i := 0;
      while i < |processors|
        invariant 0 <= i <= |processors|
        invariant Planned(processors, 0, action, resource, meta, options).0
               == calls + Planned(processors, i, action, resource, meta, options).0
        invariant Planned(processors, 0, action, resource, meta, options).1
               == Planned(processors, i, action, resource, meta, options).1
      {
        ghost var next := Planned(processors, i + 1, action, resource, meta, options);
        var p := processors[i];
        var name := Lower(action);
        if mimeType in p.mimes && name in p.methods {
          var call := Invocation(i, action, resource, meta, options);
          var out := p.methods[name](resource, meta, options);
          assert out == Outcome(p, action, resource, meta, options);
          if out.Some? {
            assert Planned(processors, i, action, resource, meta, options) == ([call], out);
            return calls + [call], out;
          }
          assert Planned(processors, i, action, resource, meta, options) == ([call] + next.0, next.1);
          assert calls + ([call] + next.0) == (calls + [call]) + next.0;
          calls := calls + [call];
        }
        i := i + 1;
      }
      assert calls + [] == calls;
    }
  }
}
