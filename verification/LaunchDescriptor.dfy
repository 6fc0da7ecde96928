/** The launch descriptor: when it is safe to launch, its JSON text, and reading that text back. */
module LaunchDescriptor {
  import opened Basics
  import opened Bytes
  import opened Json
  import opened JsonObjects
  import JsonMachine
  import Utf8

  const VERSION := 1
  const MAX_BYTES := 1024 * 1024
  const MAX_VERSION := 1000000

  datatype Session = Session(gpuSelector: bytes, displayBackend: bytes, graphicsFrontend: bytes)
  datatype EnvVar = EnvVar(name: bytes, value: bytes)
  datatype Descriptor = Descriptor(version: int, session: Session, cwd: bytes, argv: seq<bytes>, env: seq<EnvVar>)

  function Ascii(s: string): (b: bytes)
    requires forall i | 0 <= i < |s| :: s[i] as int < 128
    ensures |b| == |s| && forall i | 0 <= i < |s| :: b[i] == s[i] as int
  {
    seq(|s|, i requires 0 <= i < |s| => s[i] as int)
  }

  const KEY_VERSION: bytes := Ascii("version")
  const KEY_OPTIONS: bytes := Ascii("session_options")
  const KEY_GPU: bytes := Ascii("gpu_selector")
  const KEY_DISPLAY: bytes := Ascii("display_backend")
  const KEY_FRONTEND: bytes := Ascii("graphics_frontend")
  const KEY_PROCESS: bytes := Ascii("process")
  const KEY_CWD: bytes := Ascii("cwd")
  const KEY_ARGV: bytes := Ascii("argv")
  const KEY_ENV: bytes := Ascii("env")
  const AUTO: bytes := Ascii("auto")
  const EQUALS: byte := '=' as int

  // ---- what may be launched ----

  predicate ValidVar(e: EnvVar) {
    e.name != [] && EQUALS !in e.name && Utf8.Clean(e.name) && Utf8.Clean(e.value)
  }

  predicate Valid(d: Descriptor) {
    && d.version == VERSION
    && d.argv != []
    && (forall i | 0 <= i < |d.argv| :: Utf8.Clean(d.argv[i]))
    && Utf8.Clean(d.cwd)
    && (forall i | 0 <= i < |d.env| :: ValidVar(d.env[i]))
    && Utf8.Clean(d.session.gpuSelector)
    && Utf8.Clean(d.session.displayBackend)
    && Utf8.Clean(d.session.graphicsFrontend)
  }

  /** The texts a descriptor carries. */
  ghost predicate Carries(d: Descriptor, s: bytes) {
    || s in d.argv || s == d.cwd || (exists e :: e in d.env && (s == e.name || s == e.value))
    || s == d.session.gpuSelector || s == d.session.displayBackend || s == d.session.graphicsFrontend
  }

  ghost predicate IsText(s: bytes) {
    exists cps :: Utf8.CleanScalars(cps) && Utf8.EncodeAll(cps) == s
  }

  /** A descriptor may be launched exactly when it is of this version, names a program, sets only variables
      that have a name without '=', and every text in it is the encoding of nonzero scalar values. */
  lemma ValidExactly(d: Descriptor)
    ensures Valid(d) <==>
            && d.version == VERSION && |d.argv| > 0
            && (forall e | e in d.env :: |e.name| > 0 && EQUALS !in e.name)
            && (forall s | Carries(d, s) :: IsText(s))
  {
    forall s: bytes ensures Utf8.Clean(s) <==> IsText(s) {
      Utf8.CleanExactlyWhenEncoded(s);
    }
    if Valid(d) {
      forall s | Carries(d, s) ensures Utf8.Clean(s) {
        CarriedTextIsClean(d, s);
      }
    } else if d.version == VERSION && |d.argv| > 0 && forall e | e in d.env :: |e.name| > 0 && EQUALS !in e.name {
      if forall s | Carries(d, s) :: IsText(s) {
        forall i | 0 <= i < |d.env| ensures ValidVar(d.env[i]) {
          assert d.env[i] in d.env;
          assert Carries(d, d.env[i].name) && Carries(d, d.env[i].value);
        }
        assert Carries(d, d.cwd) && Carries(d, d.session.gpuSelector);
        assert Carries(d, d.session.displayBackend) && Carries(d, d.session.graphicsFrontend);
      }
    }
  }

  lemma CarriedTextIsClean(d: Descriptor, s: bytes)
    requires Valid(d) && Carries(d, s)
    ensures Utf8.Clean(s)
  {
  }

  method Validate(d: Descriptor) returns (ok: bool)
    ensures ok == Valid(d)
  {
    if d.version != VERSION || d.argv == [] {
      return false;
    }
    for i := 0 to |d.argv|
      invariant forall j | 0 <= j < i :: Utf8.Clean(d.argv[j])
    {
      var clean := Utf8.IsCleanUtf8(d.argv[i]);
      if !clean {
        return false;
      }
    }
    if d.cwd != [] {
      var clean := Utf8.IsCleanUtf8(d.cwd);
      if !clean {
        return false;
      }
    }
    for i := 0 to |d.env|
      invariant forall j | 0 <= j < i :: ValidVar(d.env[j])
    {
      if d.env[i].name == [] || EQUALS in d.env[i].name {
        return false;
      }
      var name := Utf8.IsCleanUtf8(d.env[i].name);
      var value := Utf8.IsCleanUtf8(d.env[i].value);
      if !name || !value {
        return false;
      }
    }
    var gpu := Utf8.IsCleanUtf8(d.session.gpuSelector);
    var display := Utf8.IsCleanUtf8(d.session.displayBackend);
    var frontend := Utf8.IsCleanUtf8(d.session.graphicsFrontend);
    return gpu && display && frontend;
  }

  // ---- writing ----

  function Strings(argv: seq<bytes>): (items: seq<Value>)
    ensures |items| == |argv| && forall i | 0 <= i < |argv| :: items[i] == Str(argv[i])
  {
    if argv == [] then [] else Strings(argv[..|argv| - 1]) + [Str(argv[|argv| - 1])]
  }

  /** The overrides set one after the other in an empty object. */
  function EnvMembers(env: seq<EnvVar>): seq<Member> {
    if env == [] then []
    else
      var last := env[|env| - 1];
      WithMember(EnvMembers(env[..|env| - 1]), last.name, Str(last.value))
  }

  function SessionValue(s: Session): Value {
    Obj([Member(KEY_GPU, Str(s.gpuSelector)), Member(KEY_DISPLAY, Str(s.displayBackend)),
         Member(KEY_FRONTEND, Str(s.graphicsFrontend))])
  }

  function ProcessValue(d: Descriptor): Value {
    Obj([Member(KEY_CWD, Str(d.cwd)), Member(KEY_ARGV, Arr(Strings(d.argv))),
         Member(KEY_ENV, Obj(EnvMembers(d.env)))])
  }

  function ToValue(d: Descriptor): Value {
    Obj([Member(KEY_VERSION, Num(d.version as real)), Member(KEY_OPTIONS, SessionValue(d.session)),
         Member(KEY_PROCESS, ProcessValue(d))])
  }

  function ToJson(c: Conversions, d: Descriptor, pretty: bool): bytes {
    Dump(c, ToValue(d), if pretty then 2 else 0, 0)
  }

  lemma KeysDiffer()
    ensures KEY_VERSION != KEY_OPTIONS && KEY_VERSION != KEY_PROCESS && KEY_OPTIONS != KEY_PROCESS
    ensures KEY_GPU != KEY_DISPLAY && KEY_GPU != KEY_FRONTEND && KEY_DISPLAY != KEY_FRONTEND
    ensures KEY_CWD != KEY_ARGV && KEY_CWD != KEY_ENV && KEY_ARGV != KEY_ENV
  {
    assert KEY_VERSION[0] != KEY_PROCESS[0];
    assert KEY_CWD[0] != KEY_ENV[0];
    assert |KEY_OPTIONS| == 15 && |KEY_PROCESS| == 7 && |KEY_VERSION| == 7;
    assert |KEY_GPU| == 12 && |KEY_DISPLAY| == 15 && |KEY_FRONTEND| == 17;
    assert |KEY_ARGV| == 4 && |KEY_CWD| == 3 && |KEY_ENV| == 3;
  }

  /** Setting three different keys in an empty object lists them in that order. */
  lemma ThreeSets(k: bytes, v: Value, l: bytes, w: Value, m: bytes, x: Value)
    requires k != l && k != m && l != m
    ensures WithMember(WithMember(WithMember([], k, v), l, w), m, x) == [Member(k, v), Member(l, w), Member(m, x)]
  {
    var two := [Member(k, v), Member(l, w)];
    assert [Member(k, v)][1..] == [] && [Member(l, w)][1..] == [] && two[1..] == [Member(l, w)];
    SetAppends([Member(k, v)], l, w);
    assert Lookup(two[1..], m) == None;
    SetAppends([Member(k, v), Member(l, w)], m, x);
  }

  method BuildArgv(argv: seq<bytes>) returns (items: seq<Value>)
    ensures items == Strings(argv)
  {
    items := [];
    for i := 0 to |argv|
      invariant items == Strings(argv[..i])
    {
      items := items + [Str(argv[i])];
      assert argv[..i + 1][..i] == argv[..i];
    }
    assert argv[..|argv|] == argv;
  }

  method BuildEnv(vars: seq<EnvVar>) returns (v: Value)
    ensures v == Obj(EnvMembers(vars))
  {
    var cell := new Cell(Obj([]));
    for i := 0 to |vars|
      invariant cell.value == Obj(EnvMembers(vars[..i]))
    {
      cell.Set(vars[i].name, Str(vars[i].value));
      assert vars[..i + 1][..i] == vars[..i];
    }
    assert vars[..|vars|] == vars;
    v := cell.value;
  }

  method BuildObject(k: bytes, v: Value, l: bytes, w: Value, m: bytes, x: Value) returns (r: Value)
    requires k != l && k != m && l != m
    ensures r == Obj([Member(k, v), Member(l, w), Member(m, x)])
  {
    var cell := new Cell(Obj([]));
    cell.Set(k, v);
    cell.Set(l, w);
    cell.Set(m, x);
    ThreeSets(k, v, l, w, m, x);
    r := cell.value;
  }

  method WriteJson(c: Conversions, d: Descriptor, pretty: bool) returns (text: bytes)
    ensures text == ToJson(c, d, pretty)
  {
    KeysDiffer();
    var options := BuildObject(KEY_GPU, Str(d.session.gpuSelector), KEY_DISPLAY, Str(d.session.displayBackend),
                               KEY_FRONTEND, Str(d.session.graphicsFrontend));
    var argv := BuildArgv(d.argv);
    var env := BuildEnv(d.env);
    var process := BuildObject(KEY_CWD, Str(d.cwd), KEY_ARGV, Arr(argv), KEY_ENV, env);
    var root := BuildObject(KEY_VERSION, Num(d.version as real), KEY_OPTIONS, options, KEY_PROCESS, process);
    text := JsonMachine.DumpDocument(c, root, if pretty then 2 else 0);
  }

  // ---- reading ----

  /** A string field, its fallback when absent or null, nothing when it is something else. */
  function StringField(v: Value, key: bytes, fallback: bytes): Option<bytes> {
    match Find(v, key)
    case None => Some(fallback)
    case Some(Null) => Some(fallback)
    case Some(Str(s)) => Some(s)
    case Some(_) => None
  }

  function ReadVersion(root: Value): Option<int> {
    match Find(root, KEY_VERSION)
    case Some(Num(x)) => if x == x.Floor as real && 0 <= x.Floor <= MAX_VERSION then Some(x.Floor) else None
    case _ => None
  }

  function ReadSession(root: Value): Option<Session> {
    match Find(root, KEY_OPTIONS)
    case None => Some(Session(AUTO, AUTO, AUTO))
    case Some(options) =>
      var gpu, display, frontend :=
        StringField(options, KEY_GPU, AUTO), StringField(options, KEY_DISPLAY, AUTO),
        StringField(options, KEY_FRONTEND, AUTO);
      if options.Obj? && gpu.Some? && display.Some? && frontend.Some?
      then Some(Session(gpu.value, display.value, frontend.value))
      else None
  }

  predicate AllStrings(items: seq<Value>) {
    forall i | 0 <= i < |items| :: items[i].Str?
  }

  function StringsOf(items: seq<Value>): (argv: seq<bytes>)
    requires AllStrings(items)
    ensures |argv| == |items| && forall i | 0 <= i < |argv| :: argv[i] == items[i].s
  {
    if items == [] then [] else StringsOf(items[..|items| - 1]) + [items[|items| - 1].s]
  }

  function ReadArgv(process: Value): Option<seq<bytes>> {
    match Find(process, KEY_ARGV)
    case Some(Arr(items)) =>
      if AllStrings(items) then Some(StringsOf(items)) else None
    case _ => None
  }

  predicate AllStringValues(members: seq<Member>) {
    forall i | 0 <= i < |members| :: members[i].value.Str?
  }

  function EnvOf(members: seq<Member>): (env: seq<EnvVar>)
    requires AllStringValues(members)
    ensures |env| == |members|
    ensures forall i | 0 <= i < |env| :: env[i] == EnvVar(members[i].key, members[i].value.s)
  {
    if members == [] then []
    else
      var last := members[|members| - 1];
      EnvOf(members[..|members| - 1]) + [EnvVar(last.key, last.value.s)]
  }

  function ReadEnv(process: Value): Option<seq<EnvVar>> {
    match Find(process, KEY_ENV)
    case None => Some([])
    case Some(Obj(members)) => if AllStringValues(members) then Some(EnvOf(members)) else None
    case Some(_) => None
  }

  datatype Process = Process(cwd: bytes, argv: seq<bytes>, env: seq<EnvVar>)

  function ReadProcess(process: Value): Option<Process> {
    var cwd, argv, env := StringField(process, KEY_CWD, []), ReadArgv(process), ReadEnv(process);
    if process.Obj? && cwd.Some? && argv.Some? && env.Some?
    then Some(Process(cwd.value, argv.value, env.value))
    else None
  }

  function FindProcess(root: Value): Option<Process> {
    match Find(root, KEY_PROCESS)
    case None => None
    case Some(process) => ReadProcess(process)
  }

  function FromValue(root: Value): Option<Descriptor> {
    var version, session, process := ReadVersion(root), ReadSession(root), FindProcess(root);
    if root.Obj? && version.Some? && session.Some? && process.Some? then
      var d := Descriptor(version.value, session.value, process.value.cwd, process.value.argv, process.value.env);
      if Valid(d) then Some(d) else None
    else None
  }

  function FromJson(c: Conversions, text: bytes): Option<Descriptor> {
    if |text| > MAX_BYTES then None
    else
      match ParseDocument(c, text)
      case Fail => None
      case Ok(root, _) => FromValue(root)
  }

  method CollectArgv(items: seq<Value>) returns (r: Option<seq<bytes>>)
    ensures r == if AllStrings(items) then Some(StringsOf(items)) else None
  {
    var argv: seq<bytes> := [];
    for i := 0 to |items|
      invariant AllStrings(items[..i]) && argv == StringsOf(items[..i])
    {
      if !items[i].Str? {
        return None;
      }
      argv := argv + [items[i].s];
      assert items[..i + 1][..i] == items[..i];
    }
    assert items[..|items|] == items;
    return Some(argv);
  }

  method CollectEnv(members: seq<Member>) returns (r: Option<seq<EnvVar>>)
    ensures r == if AllStringValues(members) then Some(EnvOf(members)) else None
  {
    var env: seq<EnvVar> := [];
    for i := 0 to |members|
      invariant AllStringValues(members[..i]) && env == EnvOf(members[..i])
    {
      if !members[i].value.Str? {
        return None;
      }
      env := env + [EnvVar(members[i].key, members[i].value.s)];
      assert members[..i + 1][..i] == members[..i];
    }
    assert members[..|members|] == members;
    return Some(env);
  }

  method CollectProcess(process: Value) returns (r: Option<Process>)
    ensures r == ReadProcess(process)
  {
    if !process.Obj? {
      return None;
    }
    var cwd := StringField(process, KEY_CWD, []);
    var items := Find(process, KEY_ARGV);
    if cwd == None || items == None || !items.value.Arr? {
      return None;
    }
    var argv := CollectArgv(items.value.items);
    if argv == None {
      return None;
    }
    var vars := Find(process, KEY_ENV);
    if vars == None {
      return Some(Process(cwd.value, argv.value, []));
    }
    if !vars.value.Obj? {
      return None;
    }
    var env := CollectEnv(vars.value.members);
    if env == None {
      return None;
    }
    return Some(Process(cwd.value, argv.value, env.value));
  }

  method ReadJson(c: Conversions, text: bytes) returns (r: Option<Descriptor>)
    ensures r == FromJson(c, text)
  {
    if |text| > MAX_BYTES {
      return None;
    }
    var parser := new JsonMachine.Parser(c, text);
    assert parser.Rest() == text;
    var root := parser.ReadDocument();
    if root == None || !root.value.Obj? {
      return None;
    }
    var version := ReadVersion(root.value);
    var session := ReadSession(root.value);
    var process := Find(root.value, KEY_PROCESS);
    if version == None || session == None || process == None {
      return None;
    }
    var parts := CollectProcess(process.value);
    if parts == None {
      return None;
    }
    var d := Descriptor(version.value, session.value, parts.value.cwd, parts.value.argv, parts.value.env);
    var ok := Validate(d);
    return if ok then Some(d) else None;
  }
}
