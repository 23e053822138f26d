/**
 * `snapper modify`: for each snapshot number argument, fetch the snapshot's
 * metadata, change the fields whose options were given, and store it back.
 */
module Modify {
  import opened Common
  import opened Numbers
  import opened Userdata
  import opened Service

  /** The options of `modify`; `None` is an option not given. */
  datatype ModifyOptions = ModifyOptions(
    description: Option<string>,
    cleanup: Option<string>,
    userdata: Option<string>)

  /** The `--userdata` option, when given, is a readable delta. */
  predicate UserdataReadable(opts: ModifyOptions) {
    opts.userdata.None? || ValidDelta(opts.userdata.value)
  }

  /**
   * The field updates of one snapshot: a given description or cleanup
   * algorithm replaces the old one, and a given userdata delta is merged
   * into the snapshot's current userdata.
   */
  function UpdateData(data: SnapshotData, opts: ModifyOptions): (r: Result<SnapshotData>)
    ensures r.Success? <==> UserdataReadable(opts)
    ensures r.Failure? ==> r.error == InvalidUserdata
    ensures r.Success? ==> r.value.description == opts.description.GetOr(data.description)
    ensures r.Success? ==> r.value.cleanup == opts.cleanup.GetOr(data.cleanup)
    ensures r.Success? && opts.userdata.None? ==> r.value.userdata == data.userdata
    ensures r.Success? && opts.userdata.Some? ==>
              ReadUserdata(opts.userdata.value, data.userdata) == Success(r.value.userdata)
  {
    var userdata :- match opts.userdata
                    case None => Success(data.userdata)
                    case Some(text) => ReadUserdata(text, data.userdata);
    Success(SnapshotData(opts.description.GetOr(data.description), opts.cleanup.GetOr(data.cleanup), userdata))
  }

  /** Keys the `--userdata` delta does not name keep their old values through an update. */
  lemma UpdateDataUnmentioned(data: SnapshotData, opts: ModifyOptions, k: string)
    requires UserdataReadable(opts)
    requires opts.userdata.Some? ==>
               forall i :: 0 <= i < |Delta(opts.userdata.value).value| ==> Delta(opts.userdata.value).value[i].0 != k
    ensures k in UpdateData(data, opts).value.userdata <==> k in data.userdata
    ensures k in data.userdata ==> UpdateData(data, opts).value.userdata[k] == data.userdata[k]
  {
    if opts.userdata.Some? {
      ReadUserdataUnmentioned(opts.userdata.value, data.userdata, k);
    }
  }

  /**
   * The `i`-th argument was handled completely in `calls`: a fetch of that
   * snapshot, then a store of its updated metadata under the same number.
   */
  predicate ModifiedAt(config: string, opts: ModifyOptions, args: seq<string>, svc: Service, calls: seq<Call>, i: nat)
    requires i < |args| && 2 * i + 2 <= |calls|
  {
    && ReadNum(args[i]).Success?
    && UpdateData(svc.snapshot(calls[..2 * i + 1]), opts).Success?
    && calls[2 * i] == GetSnapshot(config, ReadNum(args[i]).value)
    && calls[2 * i + 1] == SetSnapshot(config, ReadNum(args[i]).value, UpdateData(svc.snapshot(calls[..2 * i + 1]), opts).value)
  }

  /** The first `n` arguments were handled completely, and nothing else was called. */
  predicate ModifiedFirst(config: string, opts: ModifyOptions, args: seq<string>, svc: Service, calls: seq<Call>, n: nat)
    requires n <= |args|
  {
    |calls| == 2 * n && forall i :: 0 <= i < n ==> ModifiedAt(config, opts, args, svc, calls, i)
  }

  /**
   * The run stopped at argument `k`: the arguments before it were handled
   * completely; `k` itself is not a snapshot number (nothing more is
   * called), or its snapshot was fetched and then the userdata could not be
   * read (nothing is stored).
   */
  predicate StoppedAt(config: string, opts: ModifyOptions, args: seq<string>, svc: Service, o: Outcome<()>, k: nat) {
    && k < |args|
    && o.result.Failure?
    && 2 * k <= |o.calls|
    && ModifiedFirst(config, opts, args, svc, o.calls[..2 * k], k)
    && (ReadNum(args[k]).Failure? ==>
          |o.calls| == 2 * k && o.result.error == InvalidSnapshot(args[k]))
    && (ReadNum(args[k]).Success? ==>
          && !UserdataReadable(opts)
          && |o.calls| == 2 * k + 1
          && o.calls[2 * k] == GetSnapshot(config, ReadNum(args[k]).value)
          && o.result.error == InvalidUserdata)
  }

  /** Extending a trace keeps the arguments handled in its prefix handled. */
  lemma ModifiedFirstExtend(config: string, opts: ModifyOptions, args: seq<string>, svc: Service,
                            calls: seq<Call>, more: seq<Call>, n: nat)
    requires n <= |args| && ModifiedFirst(config, opts, args, svc, calls, n)
    ensures forall i :: 0 <= i < n ==> ModifiedAt(config, opts, args, svc, calls + more, i)
  {
    forall i | 0 <= i < n
      ensures ModifiedAt(config, opts, args, svc, calls + more, i)
    {
      assert ModifiedAt(config, opts, args, svc, calls, i);
      assert (calls + more)[..2 * i + 1] == calls[..2 * i + 1];
      assert (calls + more)[2 * i] == calls[2 * i];
      assert (calls + more)[2 * i + 1] == calls[2 * i + 1];
    }
  }

  /**
   * `command_modify`: at least one argument is required; the arguments are
   * handled in order, each fully before the next, and the first one that
   * fails ends the command with the earlier ones already stored.
   */
  method CommandModify(config: string, opts: ModifyOptions, args: seq<string>, svc: Service)
    returns (o: Outcome<()>)
    ensures |args| == 0 ==> o == Outcome([], Failure(WrongArgumentCount("modify")))
    ensures o.result.Success? <==>
              |args| > 0 && UserdataReadable(opts) && forall i :: 0 <= i < |args| ==> ReadNum(args[i]).Success?
    ensures o.result.Success? ==> ModifiedFirst(config, opts, args, svc, o.calls, |args|)
    ensures o.result.Failure? && |args| > 0 ==> StoppedAt(config, opts, args, svc, o, |o.calls| / 2)
  {
    if |args| == 0 {
      return Outcome([], Failure(WrongArgumentCount("modify")));
    }
    var calls: seq<Call> := [];
    var i := 0;
    while i < |args|
      invariant 0 <= i <= |args|
      invariant ModifiedFirst(config, opts, args, svc, calls, i)
      invariant i > 0 ==> UserdataReadable(opts)
      invariant forall j :: 0 <= j < i ==> ReadNum(args[j]).Success?
    {
      var num := ReadNum(args[i]);
      if num.Failure? {
        assert calls[..2 * i] == calls;
        o := Outcome(calls, Failure(num.error));
        assert |o.calls| / 2 == i;
        return;
      }
      var fetched := calls + [GetSnapshot(config, num.value)];
      ModifiedFirstExtend(config, opts, args, svc, calls, [GetSnapshot(config, num.value)], i);
      var data := UpdateData(svc.snapshot(fetched), opts);
      if data.Failure? {
        assert fetched[..2 * i] == calls;
        o := Outcome(fetched, Failure(data.error));
        assert |o.calls| / 2 == i;
        return;
      }
      var stored := fetched + [SetSnapshot(config, num.value, data.value)];
      ModifiedFirstExtend(config, opts, args, svc, calls, [GetSnapshot(config, num.value), SetSnapshot(config, num.value, data.value)], i);
      assert stored == calls + [GetSnapshot(config, num.value), SetSnapshot(config, num.value, data.value)];
      assert stored[..2 * i + 1] == fetched;
      assert ModifiedAt(config, opts, args, svc, stored, i);
      calls := stored;
      i := i + 1;
    }
    o := Outcome(calls, Success(()));
  }
}
