/**
 * `snapper create`: the snapshot type selected by `--type`, the validation
 * of the options, and the service calls of each type, including the
 * pre/post pair wrapped around an external command.
 */
module Create {
  import opened Common
  import opened Numbers
  import opened Userdata
  import opened Service

  datatype SnapshotType = Single | Pre | Post | PrePost

  /** The `--type` argument that selects `t`. */
  function TypeName(t: SnapshotType): string {
    match t
    case Single => "single"
    case Pre => "pre"
    case Post => "post"
    case PrePost => "pre-post"
  }

  /** The type a `--type` argument selects; any other text selects none. */
  function TypeOf(name: string): (r: Option<SnapshotType>)
    ensures r.Some? ==> TypeName(r.value) == name
    ensures r.None? ==> forall t: SnapshotType :: TypeName(t) != name
  {
    if name == "single" then Some(Single)
    else if name == "pre" then Some(Pre)
    else if name == "post" then Some(Post)
    else if name == "pre-post" then Some(PrePost)
    else None
  }

  /** The options of `create` as parsed from the command line; `None` is an option not given. */
  datatype CreateOptions = CreateOptions(
    typeName: Option<string>,
    preNumber: Option<string>,
    printNumber: bool,
    description: Option<string>,
    cleanup: Option<string>,
    userdata: Option<string>,
    command: Option<string>)

  /** A validated request: what the dispatch works from. */
  datatype Request = Request(
    kind: SnapshotType,
    pre: Num,
    printNumber: bool,
    description: string,
    cleanup: string,
    userdata: Userdata,
    command: string)

  /** The `--type` argument, when given, names a snapshot type. */
  predicate TypeKnown(opts: CreateOptions) {
    opts.typeName.None? || TypeOf(opts.typeName.value).Some?
  }

  /** The `--pre-number` argument, when given, reads as a snapshot number. */
  predicate PreNumberReadable(opts: CreateOptions) {
    opts.preNumber.None? || ReadNum(opts.preNumber.value).Success?
  }

  /** The `--userdata` argument, when given, is a readable delta. */
  predicate DeltaReadable(opts: CreateOptions) {
    opts.userdata.None? || ValidDelta(opts.userdata.value)
  }

  /** The type asked for once `--type` is known: `--command` forces a pre/post pair, and no `--type` means single. */
  function AskedKind(opts: CreateOptions): SnapshotType
    requires TypeKnown(opts)
  {
    if opts.command.Some? then PrePost
    else if opts.typeName.None? then Single
    else TypeOf(opts.typeName.value).value
  }

  /** The pre-number once it is readable; 0 when not given. */
  function AskedPre(opts: CreateOptions): Num
    requires PreNumberReadable(opts)
  {
    if opts.preNumber.None? then 0 else ReadNum(opts.preNumber.value).value
  }

  /** Every option before the type-specific checks was accepted. */
  predicate OptionsReadable(opts: CreateOptions, args: seq<string>) {
    |args| == 0 && TypeKnown(opts) && PreNumberReadable(opts) && DeltaReadable(opts)
  }

  /**
   * The checks of `create`, in the order the client makes them: no
   * positional arguments, a known `--type`, a readable `--pre-number`,
   * readable `--userdata`; then `--command` switches to a pre/post pair,
   * a post snapshot needs a non-zero pre-number and a pre/post pair a
   * non-empty command.
   */
  function Validate(opts: CreateOptions, args: seq<string>): (r: Result<Request>)
    ensures r.Success? <==>
              && OptionsReadable(opts, args)
              && !(AskedKind(opts) == Post && AskedPre(opts) == 0)
              && !(AskedKind(opts) == PrePost && opts.command.GetOr("") == [])
    ensures |args| > 0 ==> r == Failure(WrongArgumentCount("create"))
    ensures |args| == 0 && TypeKnown(opts) && !PreNumberReadable(opts) ==>
              r == Failure(InvalidSnapshot(opts.preNumber.value))
    ensures |args| == 0 && TypeKnown(opts) && PreNumberReadable(opts) && !DeltaReadable(opts) ==>
              r == Failure(InvalidUserdata)
    ensures OptionsReadable(opts, args) && AskedKind(opts) == Post && AskedPre(opts) == 0 ==>
              r == Failure(MissingPreNumber)
    ensures OptionsReadable(opts, args) && AskedKind(opts) == PrePost && opts.command.GetOr("") == [] ==>
              r == Failure(MissingCommand)
    ensures |args| == 0 && opts.typeName.Some? && TypeOf(opts.typeName.value).None? ==>
              r == Failure(UnknownSnapshotType(opts.typeName.value))
    ensures r.Failure? && r.error.InvalidSnapshot? ==>
              opts.preNumber.Some? && ReadNum(opts.preNumber.value).Failure?
    ensures r == Failure(InvalidUserdata) ==> opts.userdata.Some? && !ValidDelta(opts.userdata.value)
    ensures r.Success? ==> |args| == 0
    ensures r.Success? && opts.command.Some? ==> r.value.kind == PrePost && r.value.command == opts.command.value
    ensures r.Success? && opts.command.None? ==> TypeName(r.value.kind) == opts.typeName.GetOr("single")
    ensures r.Success? && r.value.kind == Post ==> r.value.pre != 0
    ensures r.Success? && r.value.kind == PrePost ==> r.value.command != []
    ensures r.Success? && opts.preNumber.None? ==> r.value.pre == 0
    ensures r.Success? && opts.preNumber.Some? ==> ReadNum(opts.preNumber.value) == Success(r.value.pre)
    ensures r.Success? && opts.userdata.None? ==> r.value.userdata == map[]
    ensures r.Success? && opts.userdata.Some? ==> ReadUserdata(opts.userdata.value, map[]) == Success(r.value.userdata)
    ensures r.Success? ==> r.value.description == opts.description.GetOr("")
    ensures r.Success? ==> r.value.cleanup == opts.cleanup.GetOr("")
    ensures r.Success? ==> r.value.printNumber == opts.printNumber
  {
    if |args| > 0 then Failure(WrongArgumentCount("create"))
    else if !TypeKnown(opts) then Failure(UnknownSnapshotType(opts.typeName.value))
    else if !PreNumberReadable(opts) then Failure(InvalidSnapshot(opts.preNumber.value))
    else if !DeltaReadable(opts) then Failure(InvalidUserdata)
    else
      var kind := AskedKind(opts);
      var pre := AskedPre(opts);
      var userdata := if opts.userdata.None? then map[] else ReadUserdata(opts.userdata.value, map[]).value;
      var command := opts.command.GetOr("");
      if kind == Post && pre == 0 then Failure(MissingPreNumber)
      else if kind == PrePost && command == [] then Failure(MissingCommand)
      else Success(Request(kind, pre, opts.printNumber, opts.description.GetOr(""),
                           opts.cleanup.GetOr(""), userdata, command))
  }

  /** The text `create --print-number` prints for a pre/post pair: `pre..post`. */
  function RangeText(first: Num, second: Num): (s: string)
    ensures first != second ==> ReadNums(s) == Success((first, second))
  {
    ReadNumsRange(first, second);
    Decimal(first) + ".." + Decimal(second)
  }

  /**
   * The service calls of a validated request and the line printed with
   * `--print-number` (`None` without it). The number a create call returns
   * is `svc.newNumber` of the trace ending with that call.
   */
  function Dispatch(config: string, req: Request, svc: Service): (o: (seq<Call>, Option<string>))
    ensures req.kind != PrePost ==> |o.0| == 1
    ensures req.kind == PrePost ==> |o.0| == 3
    ensures o.1.Some? <==> req.printNumber
  {
    match req.kind
    case Single =>
      var calls := [CreateSingle(config, req.description, req.cleanup, req.userdata)];
      (calls, if req.printNumber then Some(Decimal(svc.newNumber(calls))) else None)
    case Pre =>
      var calls := [CreatePre(config, req.description, req.cleanup, req.userdata)];
      (calls, if req.printNumber then Some(Decimal(svc.newNumber(calls))) else None)
    case Post =>
      var calls := [CreatePost(config, req.pre, req.description, req.cleanup, req.userdata)];
      (calls, if req.printNumber then Some(Decimal(svc.newNumber(calls))) else None)
    case PrePost =>
      var preCall := [CreatePre(config, req.description, req.cleanup, req.userdata)];
      var first := svc.newNumber(preCall);
      var calls := preCall + [RunCommand(req.command), CreatePost(config, first, "", req.cleanup, req.userdata)];
      var second := svc.newNumber(calls);
      (calls, if req.printNumber then Some(RangeText(first, second)) else None)
  }

  /** `command_create`: validate, then dispatch; a rejected invocation makes no call at all. */
  function CommandCreate(config: string, opts: CreateOptions, args: seq<string>, svc: Service): (o: Outcome<Option<string>>)
    ensures o.result.Failure? <==> Validate(opts, args).Failure?
    ensures o.result.Failure? ==> o.calls == [] && o.result.error == Validate(opts, args).error
    ensures o.result.Success? ==> o.calls != []
  {
    match Validate(opts, args)
    case Failure(e) => Outcome([], Failure(e))
    case Success(req) =>
      var (calls, printed) := Dispatch(config, req, svc);
      Outcome(calls, Success(printed))
  }

  /**
   * A single, pre or post snapshot is exactly one create call of that kind,
   * carrying the description, cleanup algorithm and userdata given, and for
   * a post snapshot the pre-number given; the printed line reads back as the
   * number the service returned.
   */
  lemma CreateOneCall(config: string, opts: CreateOptions, args: seq<string>, svc: Service)
    requires OptionsReadable(opts, args) && AskedKind(opts) != PrePost
    requires !(AskedKind(opts) == Post && AskedPre(opts) == 0)
    ensures var req := Validate(opts, args).value;
            var o := CommandCreate(config, opts, args, svc);
            && o.result.Success?
            && |o.calls| == 1
            && (req.kind == Single <==> o.calls[0] == CreateSingle(config, req.description, req.cleanup, req.userdata))
            && (req.kind == Pre <==> o.calls[0] == CreatePre(config, req.description, req.cleanup, req.userdata))
            && (req.kind == Post <==> o.calls[0] == CreatePost(config, req.pre, req.description, req.cleanup, req.userdata))
            && (opts.printNumber ==> ReadNum(o.result.value.value) == Success(svc.newNumber(o.calls)))
  {
    var req := Validate(opts, args).value;
    if opts.printNumber {
      ReadNumDecimal(svc.newNumber(CommandCreate(config, opts, args, svc).calls));
    }
  }

  /**
   * A pre/post pair is one pre call, then the command, then one post call
   * that passes the number the pre call returned, an empty description and
   * the same cleanup algorithm and userdata.
   */
  lemma CreatePrePostCalls(config: string, opts: CreateOptions, args: seq<string>, svc: Service)
    requires OptionsReadable(opts, args) && AskedKind(opts) == PrePost && opts.command.GetOr("") != []
    ensures var req := Validate(opts, args).value;
            var o := CommandCreate(config, opts, args, svc);
            && o.result.Success?
            && |o.calls| == 3
            && o.calls[0] == CreatePre(config, req.description, req.cleanup, req.userdata)
            && o.calls[1] == RunCommand(req.command) && req.command != []
            && o.calls[2] == CreatePost(config, svc.newNumber(o.calls[..1]), "", req.cleanup, req.userdata)
  {
    var o := CommandCreate(config, opts, args, svc);
    assert o.calls[..1] == [o.calls[0]];
  }

  /**
   * The line `create --command ... --print-number` prints reads back, with
   * `read_nums`, as the numbers of the pre and the post snapshot, in that
   * order (unless the service returned the same number twice).
   */
  lemma CreatePrePostPrinted(config: string, opts: CreateOptions, args: seq<string>, svc: Service)
    requires OptionsReadable(opts, args) && AskedKind(opts) == PrePost && opts.command.GetOr("") != []
    requires opts.printNumber
    ensures var o := CommandCreate(config, opts, args, svc);
            var first := svc.newNumber(o.calls[..1]);
            var second := svc.newNumber(o.calls);
            && o.result.Success? && o.result.value.Some?
            && (first != second ==> ReadNums(o.result.value.value) == Success((first, second)))
  {
    var o := CommandCreate(config, opts, args, svc);
    assert o.calls[..1] == [o.calls[0]];
  }

  /** Giving `--command` makes a pre/post pair whatever `--type` names, as long as the rest is valid. */
  lemma CreateCommandForcesPrePost(config: string, opts: CreateOptions, args: seq<string>, svc: Service)
    requires opts.command.Some? && Validate(opts, args).Success?
    ensures var o := CommandCreate(config, opts, args, svc);
            |o.calls| == 3 && o.calls[1] == RunCommand(opts.command.value)
  {
  }
}
