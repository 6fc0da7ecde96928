/** Writing a launch descriptor and reading it back. */
module DescriptorRoundTrip {
  import opened Basics
  import opened Bytes
  import opened Json
  import opened JsonObjects
  import opened JsonRoundTrip
  import opened LaunchDescriptor

  /** The overrides as the text carries them: one for each name, the last value at the first place. */
  function Collapsed(env: seq<EnvVar>): seq<EnvVar> {
    EnvMembersAreStrings(env);
    EnvOf(EnvMembers(env))
  }

  function Carried(d: Descriptor): Descriptor {
    d.(env := Collapsed(d.env))
  }

  lemma {:induction false} SetKeepsStrings(members: seq<Member>, key: bytes, s: bytes)
    requires AllStringValues(members)
    ensures AllStringValues(WithMember(members, key, Str(s)))
  {
    if members != [] && members[0].key != key {
      SetKeepsStrings(members[1..], key, s);
    }
  }

  lemma {:induction false} EnvMembersAreStrings(env: seq<EnvVar>)
    ensures AllStringValues(EnvMembers(env)) && DistinctKeys(EnvMembers(env))
  {
    if env != [] {
      var front, last := EnvMembers(env[..|env| - 1]), env[|env| - 1];
      EnvMembersAreStrings(env[..|env| - 1]);
      SetKeepsStrings(front, last.name, last.value);
      SetKeepsDistinct(front, last.name, Str(last.value));
    }
  }

  // ---- the environment the process gets ----

  /** The parent's environment with the overrides applied in order. */
  function Overlay(parent: map<bytes, bytes>, env: seq<EnvVar>): map<bytes, bytes> {
    if env == [] then parent
    else Overlay(parent, env[..|env| - 1])[env[|env| - 1].name := env[|env| - 1].value]
  }

  lemma {:induction false} LookupLast(members: seq<Member>, last: Member, key: bytes)
    ensures Lookup(members + [last], key)
            == if Lookup(members, key) != None then Lookup(members, key)
               else if last.key == key then Some(last.value) else None
  {
    var s := members + [last];
    if members == [] {
      assert s == [last] && s[1..] == [];
    } else {
      LookupLast(members[1..], last, key);
      assert s[1..] == members[1..] + [last];
    }
  }

  function At(env: map<bytes, bytes>, name: bytes): Option<bytes> {
    if name in env then Some(env[name]) else None
  }

  lemma LastKeyIsNew(front: seq<Member>, last: Member)
    requires DistinctKeys(front + [last])
    ensures DistinctKeys(front) && Lookup(front, last.key) == None
  {
    var s := front + [last];
    assert forall i | 0 <= i < |front| :: s[i] == front[i];
    assert s[|front|] == last;
    LookupFinds(front, last.key);
  }

  /** What a name is set to is its override if it has one, else what the parent has. */
  lemma {:induction false} OverlayLooksUp(parent: map<bytes, bytes>, members: seq<Member>, name: bytes)
    requires AllStringValues(members) && DistinctKeys(members)
    ensures At(Overlay(parent, EnvOf(members)), name)
            == match Lookup(members, name) case Some(Str(s)) => Some(s) case _ => At(parent, name)
    decreases |members|
  {
    if members != [] {
      var front, last := members[..|members| - 1], members[|members| - 1];
      assert members == front + [last];
      LastKeyIsNew(front, last);
      OverlayLooksUp(parent, front, name);
      LookupLast(front, last, name);
      assert EnvOf(members)[..|members| - 1] == EnvOf(front);
    }
  }

  lemma SetOverlaysAt(parent: map<bytes, bytes>, members: seq<Member>, name: bytes, value: bytes, n: bytes)
    requires AllStringValues(members) && DistinctKeys(members)
    requires AllStringValues(WithMember(members, name, Str(value)))
    ensures At(Overlay(parent, EnvOf(WithMember(members, name, Str(value)))), n)
            == At(Overlay(parent, EnvOf(members))[name := value], n)
  {
    SetKeepsDistinct(members, name, Str(value));
    OverlayLooksUp(parent, WithMember(members, name, Str(value)), n);
    OverlayLooksUp(parent, members, n);
    SetThenLookup(members, name, Str(value), n);
  }

  lemma SameEverywhere(left: map<bytes, bytes>, right: map<bytes, bytes>)
    requires forall n: bytes :: At(left, n) == At(right, n)
    ensures left == right
  {
    assert forall n | n in left :: At(left, n) == At(right, n);
    assert forall n | n in right :: At(left, n) == At(right, n);
  }

  lemma SetOverlays(parent: map<bytes, bytes>, members: seq<Member>, name: bytes, value: bytes)
    requires AllStringValues(members) && DistinctKeys(members)
    requires AllStringValues(WithMember(members, name, Str(value)))
    ensures Overlay(parent, EnvOf(WithMember(members, name, Str(value))))
            == Overlay(parent, EnvOf(members))[name := value]
  {
    forall n: bytes
      ensures At(Overlay(parent, EnvOf(WithMember(members, name, Str(value)))), n)
              == At(Overlay(parent, EnvOf(members))[name := value], n)
    {
      SetOverlaysAt(parent, members, name, value, n);
    }
    SameEverywhere(Overlay(parent, EnvOf(WithMember(members, name, Str(value)))),
                   Overlay(parent, EnvOf(members))[name := value]);
  }

  /** Collapsing repeated names does not change the environment over any parent. */
  lemma {:induction false} CollapsedOverlaysAlike(parent: map<bytes, bytes>, env: seq<EnvVar>)
    ensures Overlay(parent, Collapsed(env)) == Overlay(parent, env)
  {
    if env == [] {
      assert Collapsed(env) == [];
    } else {
      var front, last := env[..|env| - 1], env[|env| - 1];
      CollapsedOverlaysAlike(parent, front);
      EnvMembersAreStrings(front);
      EnvMembersAreStrings(env);
      SetOverlays(parent, EnvMembers(front), last.name, last.value);
    }
  }

  // ---- validity ----

  predicate AllValidVars(members: seq<Member>) {
    forall i | 0 <= i < |members| :: members[i].value.Str? && ValidVar(EnvVar(members[i].key, members[i].value.s))
  }

  lemma {:induction false} SetKeepsValidVars(members: seq<Member>, name: bytes, value: bytes)
    requires AllValidVars(members) && ValidVar(EnvVar(name, value))
    ensures AllValidVars(WithMember(members, name, Str(value)))
  {
    if members != [] && members[0].key != name {
      SetKeepsValidVars(members[1..], name, value);
    }
  }

  lemma {:induction false} EnvMembersAreValid(env: seq<EnvVar>)
    requires forall i | 0 <= i < |env| :: ValidVar(env[i])
    ensures AllValidVars(EnvMembers(env))
  {
    if env != [] {
      var last := env[|env| - 1];
      EnvMembersAreValid(env[..|env| - 1]);
      SetKeepsValidVars(EnvMembers(env[..|env| - 1]), last.name, last.value);
    }
  }

  /** A descriptor that may be launched still may after repeated names have collapsed. */
  lemma CarriedIsValid(d: Descriptor)
    requires Valid(d)
    ensures Valid(Carried(d))
  {
    EnvMembersAreValid(d.env);
    EnvMembersAreStrings(d.env);
  }

  /** The overrides have already collapsed when no name repeats. */
  lemma {:induction false} DistinctStay(members: seq<Member>)
    requires AllStringValues(members) && DistinctKeys(members)
    ensures EnvMembers(EnvOf(members)) == members
    decreases |members|
  {
    if members != [] {
      var front, last := members[..|members| - 1], members[|members| - 1];
      DistinctStay(front);
      assert EnvOf(members)[..|members| - 1] == EnvOf(front);
      LookupFinds(front, last.key);
      SetAppends(front, last.key, last.value);
      assert members == front + [last];
    }
  }

  // ---- the text ----

  lemma StringsBack(argv: seq<bytes>)
    ensures AllStrings(Strings(argv)) && StringsOf(Strings(argv)) == argv
  {
  }

  lemma LookupThree(k: bytes, v: Value, l: bytes, w: Value, m: bytes, x: Value)
    requires k != l && k != m && l != m
    ensures var o := Obj([Member(k, v), Member(l, w), Member(m, x)]);
            Find(o, k) == Some(v) && Find(o, l) == Some(w) && Find(o, m) == Some(x)
  {
    var s := [Member(k, v), Member(l, w), Member(m, x)];
    assert s[1..] == [Member(l, w), Member(m, x)];
    assert s[1..][1..] == [Member(m, x)];
    assert Lookup(s[1..][1..], m) == Some(x);
    assert Lookup(s[1..], l) == Some(w) && Lookup(s[1..], m) == Some(x);
  }

  lemma OptionsAreRead(root: Value, s: Session)
    requires Find(root, KEY_OPTIONS) == Some(SessionValue(s))
    ensures ReadSession(root) == Some(s)
  {
    KeysDiffer();
    LookupThree(KEY_GPU, Str(s.gpuSelector), KEY_DISPLAY, Str(s.displayBackend), KEY_FRONTEND, Str(s.graphicsFrontend));
  }

  lemma SessionBack(d: Descriptor)
    ensures ReadSession(ToValue(d)) == Some(d.session)
  {
    KeysDiffer();
    LookupThree(KEY_VERSION, Num(d.version as real), KEY_OPTIONS, SessionValue(d.session),
                KEY_PROCESS, ProcessValue(d));
    OptionsAreRead(ToValue(d), d.session);
  }

  lemma ProcessBack(d: Descriptor)
    ensures FindProcess(ToValue(d)) == Some(Process(d.cwd, d.argv, Collapsed(d.env)))
  {
    KeysDiffer();
    LookupThree(KEY_VERSION, Num(d.version as real), KEY_OPTIONS, SessionValue(d.session),
                KEY_PROCESS, ProcessValue(d));
    LookupThree(KEY_CWD, Str(d.cwd), KEY_ARGV, Arr(Strings(d.argv)), KEY_ENV, Obj(EnvMembers(d.env)));
    StringsBack(d.argv);
    EnvMembersAreStrings(d.env);
  }

  lemma VersionBack(d: Descriptor)
    ensures ReadVersion(ToValue(d)) == if 0 <= d.version <= MAX_VERSION then Some(d.version) else None
  {
    KeysDiffer();
    LookupThree(KEY_VERSION, Num(d.version as real), KEY_OPTIONS, SessionValue(d.session),
                KEY_PROCESS, ProcessValue(d));
  }

  lemma ValueBack(d: Descriptor)
    ensures FromValue(ToValue(d)) == if Valid(Carried(d)) then Some(Carried(d)) else None
  {
    VersionBack(d);
    SessionBack(d);
    ProcessBack(d);
  }

  lemma DescriptorIsPrintable(c: Conversions, d: Descriptor)
    requires -INT_BOUND < d.version < INT_BOUND
    ensures Printable(c, ToValue(d))
  {
    EnvMembersAreStrings(d.env);
    assert Printable(c, SessionValue(d.session));
    assert Printable(c, ProcessValue(d));
    assert (d.version as real).Floor == d.version;
  }

  /** Exactly when a written descriptor is accepted, and what is read: everything is kept but the
      order and number of overrides of the same name. Versions are 32-bit integers. */
  lemma DescriptorReadsBack(c: Conversions, d: Descriptor, pretty: bool)
    requires ReadsIntegers(c) && -0x8000_0000 <= d.version < 0x8000_0000
    ensures FromJson(c, ToJson(c, d, pretty))
            == if |ToJson(c, d, pretty)| <= MAX_BYTES && Valid(Carried(d)) then Some(Carried(d)) else None
  {
    DescriptorIsPrintable(c, d);
    DocumentRoundTrip(c, ToValue(d), if pretty then 2 else 0);
    ValueBack(d);
  }

  /** A descriptor that may be launched is read back to one that launches the same process. */
  lemma RoundTripKeepsMeaning(c: Conversions, d: Descriptor, pretty: bool, parent: map<bytes, bytes>)
    requires ReadsIntegers(c) && Valid(d) && |ToJson(c, d, pretty)| <= MAX_BYTES
    ensures var back := FromJson(c, ToJson(c, d, pretty));
            && back.Some? && Valid(back.value)
            && back.value.version == d.version && back.value.session == d.session
            && back.value.cwd == d.cwd && back.value.argv == d.argv
            && Overlay(parent, back.value.env) == Overlay(parent, d.env)
  {
    DescriptorReadsBack(c, d, pretty);
    CarriedIsValid(d);
    CollapsedOverlaysAlike(parent, d.env);
  }

  // ---- what may be left out ----

  /** A member at the end is found under its key only if no other was, and changes nothing else. */
  lemma FoundWithLast(members: seq<Member>, key: bytes, v: Value, other: bytes)
    requires Lookup(members, key) == None
    ensures var more := Obj(members + [Member(key, v)]);
            Find(more, other) == if other == key then Some(v) else Find(Obj(members), other)
  {
    LookupLast(members, Member(key, v), other);
  }

  lemma SameReading(left: Value, right: Value)
    requires left.Obj? && right.Obj? && ReadSession(left) == ReadSession(right)
    requires Find(left, KEY_VERSION) == Find(right, KEY_VERSION) && Find(left, KEY_PROCESS) == Find(right, KEY_PROCESS)
    ensures FromValue(left) == FromValue(right)
  {
    assert ReadVersion(left) == ReadVersion(right) && FindProcess(left) == FindProcess(right);
  }

  /** Without options a descriptor is read as with every option left to the launcher. */
  lemma AbsentOptionsMeanAuto(members: seq<Member>)
    requires Lookup(members, KEY_OPTIONS) == None
    ensures FromValue(Obj(members))
            == FromValue(Obj(members + [Member(KEY_OPTIONS, SessionValue(Session(AUTO, AUTO, AUTO)))]))
  {
    var options := SessionValue(Session(AUTO, AUTO, AUTO));
    KeysDiffer();
    FoundWithLast(members, KEY_OPTIONS, options, KEY_OPTIONS);
    FoundWithLast(members, KEY_OPTIONS, options, KEY_VERSION);
    FoundWithLast(members, KEY_OPTIONS, options, KEY_PROCESS);
    OptionsAreRead(Obj(members + [Member(KEY_OPTIONS, options)]), Session(AUTO, AUTO, AUTO));
    SameReading(Obj(members), Obj(members + [Member(KEY_OPTIONS, options)]));
  }

  function WithOptions(options: seq<Member>): Value {
    Obj([Member(KEY_OPTIONS, Obj(options))])
  }

  lemma SameOptions(left: seq<Member>, right: seq<Member>)
    requires StringField(Obj(left), KEY_GPU, AUTO) == StringField(Obj(right), KEY_GPU, AUTO)
    requires StringField(Obj(left), KEY_DISPLAY, AUTO) == StringField(Obj(right), KEY_DISPLAY, AUTO)
    requires StringField(Obj(left), KEY_FRONTEND, AUTO) == StringField(Obj(right), KEY_FRONTEND, AUTO)
    ensures ReadSession(WithOptions(left)) == ReadSession(WithOptions(right))
  {
    assert Find(WithOptions(left), KEY_OPTIONS) == Some(Obj(left));
    assert Find(WithOptions(right), KEY_OPTIONS) == Some(Obj(right));
  }

  /** The same for each option by itself, null included. */
  lemma AbsentOptionMeansAuto(options: seq<Member>, key: bytes, v: Value)
    requires key == KEY_GPU || key == KEY_DISPLAY || key == KEY_FRONTEND
    requires Lookup(options, key) == None && (v == Null || v == Str(AUTO))
    ensures ReadSession(WithOptions(options)) == ReadSession(WithOptions(options + [Member(key, v)]))
  {
    KeysDiffer();
    FoundWithLast(options, key, v, KEY_GPU);
    FoundWithLast(options, key, v, KEY_DISPLAY);
    FoundWithLast(options, key, v, KEY_FRONTEND);
    SameOptions(options, options + [Member(key, v)]);
  }

  /** No directory is read as the empty one, no overrides as an empty object of them. */
  lemma AbsentPartsMeanEmpty(members: seq<Member>, key: bytes, v: Value)
    requires Lookup(members, key) == None
    requires (key == KEY_CWD && (v == Null || v == Str([]))) || (key == KEY_ENV && v == Obj([]))
    ensures ReadProcess(Obj(members)) == ReadProcess(Obj(members + [Member(key, v)]))
  {
    KeysDiffer();
    FoundWithLast(members, key, v, KEY_CWD);
    FoundWithLast(members, key, v, KEY_ARGV);
    FoundWithLast(members, key, v, KEY_ENV);
  }

  /** Nothing else may be left out. */
  lemma RestIsRequired(root: Value)
    requires FromValue(root).Some?
    ensures Find(root, KEY_VERSION).Some? && Find(root, KEY_PROCESS).Some?
    ensures Find(Find(root, KEY_PROCESS).value, KEY_ARGV).Some?
  {
    assert FindProcess(root).Some?;
    assert ReadProcess(Find(root, KEY_PROCESS).value).Some?;
  }

  predicate DistinctNames(env: seq<EnvVar>) {
    forall i, j | 0 <= i < j < |env| :: env[i].name != env[j].name
  }

  lemma CollapsedKeepsExactlyDistinct(env: seq<EnvVar>)
    ensures Collapsed(env) == env <==> DistinctNames(env)
  {
    EnvMembersAreStrings(env);
    if DistinctNames(env) {
      var members := seq(|env|, i requires 0 <= i < |env| => Member(env[i].name, Str(env[i].value)));
      DistinctStay(members);
      assert EnvOf(members) == env;
    }
  }

  /** A descriptor that may be launched reads back as exactly itself if and only if no override
      repeats a name. */
  lemma ReadsBackExactly(c: Conversions, d: Descriptor, pretty: bool)
    requires ReadsIntegers(c) && Valid(d) && |ToJson(c, d, pretty)| <= MAX_BYTES
    ensures FromJson(c, ToJson(c, d, pretty)) == Some(d) <==> DistinctNames(d.env)
  {
    DescriptorReadsBack(c, d, pretty);
    CarriedIsValid(d);
    CollapsedKeepsExactlyDistinct(d.env);
  }
}
