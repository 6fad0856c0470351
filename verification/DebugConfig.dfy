/**
 Saving a debug session to a key file and loading it back, dconfig.c.
 */
module ConfigKeys {
  import opened Common
  import opened Decimal

  datatype EnvField = EnvName | EnvValue

  datatype BreakField = BreakFile | BreakLine | BreakCondition | BreakHits | BreakEnabled

  /** The keys of the debugger group. */
  datatype Key =
    | Target | Debugger | Arguments
    | EnvCount | WatchCount | BreakCount
    | Env(i: nat, env: EnvField)
    | Watch(i: nat)
    | Break(i: nat, field: BreakField)

  function EnvSuffix(f: EnvField): string {
    match f
    case EnvName => "_name"
    case EnvValue => "_value"
  }

  function BreakSuffix(f: BreakField): string {
    match f
    case BreakFile => "_file"
    case BreakLine => "_line"
    case BreakCondition => "_condition"
    case BreakHits => "_hits_count"
    case BreakEnabled => "_enabled"
  }

  /** The key as it is printed into the file. */
  function Text(k: Key): string {
    match k
    case Target => "target"
    case Debugger => "debugger"
    case Arguments => "arguments"
    case EnvCount => "envvar_count"
    case WatchCount => "watches_count"
    case BreakCount => "breaks_count"
    case Env(i, f) => "envvar_" + (Digits(i) + EnvSuffix(f))
    case Watch(i) => "watch_" + (Digits(i) + "")
    case Break(i, f) => "break_" + (Digits(i) + BreakSuffix(f))
  }

  lemma SamePrefix(p: string, a: string, b: string)
    requires p + a == p + b
    ensures a == b
  {
    assert (p + a)[|p|..] == a;
    assert (p + b)[|p|..] == b;
  }

  lemma EnvInjective(i: nat, f: EnvField, j: nat, g: EnvField)
    requires Text(Env(i, f)) == Text(Env(j, g))
    ensures i == j && f == g
  {
    SamePrefix("envvar_", Digits(i) + EnvSuffix(f), Digits(j) + EnvSuffix(g));
    DigitsInjective(i, j, EnvSuffix(f), EnvSuffix(g));
  }

  lemma BreakInjective(i: nat, f: BreakField, j: nat, g: BreakField)
    requires Text(Break(i, f)) == Text(Break(j, g))
    ensures i == j && f == g
  {
    SamePrefix("break_", Digits(i) + BreakSuffix(f), Digits(j) + BreakSuffix(g));
    DigitsInjective(i, j, BreakSuffix(f), BreakSuffix(g));
  }

  lemma WatchInjective(i: nat, j: nat)
    requires Text(Watch(i)) == Text(Watch(j))
    ensures i == j
  {
    SamePrefix("watch_", Digits(i) + "", Digits(j) + "");
    DigitsInjective(i, j, "", "");
  }

  /** An indexed key has a digit where the key of the count has a letter. */
  lemma IndexedShape(k: Key)
    ensures k.Env? ==> Text(k)[0] == 'e' && |Text(k)| > 7 && IsDigit(Text(k)[7])
    ensures k.Watch? ==> Text(k)[0] == 'w' && |Text(k)| > 5 && Text(k)[5] == '_'
    ensures k.Break? ==> Text(k)[0] == 'b' && |Text(k)| > 5 && Text(k)[5] == '_'
  {
    match k
    case Env(i, f) => assert Text(k)[7] == Digits(i)[0];
    case _ =>
  }

  /** All keys are pairwise distinct, for all indices. */
  lemma KeysDistinct(a: Key, b: Key)
    ensures Text(a) == Text(b) ==> a == b
  {
    if Text(a) == Text(b) {
      IndexedShape(a);
      IndexedShape(b);
      hide Digits;
      match (a, b)
      case (Env(i, f), Env(j, g)) => EnvInjective(i, f, j, g);
      case (Break(i, f), Break(j, g)) => BreakInjective(i, f, j, g);
      case (Watch(i), Watch(j)) => WatchInjective(i, j);
      case (_, _) =>
    }
  }
}

module DebugConfig {
  import opened Common
  import opened Decimal
  import opened ConfigKeys
  import opened BreakModel
  import opened BreakTree
  import opened BreakAgreement
  import opened BreakStore
  import opened BreakLists
  import opened Breakpoints
  import GdbAgreement
  import DbmGdb

  const DEBUGGER_GROUP := "debugger"

  type Group = map<string, string>

  type KeyMap = map<Key, string>

  // ----- From keys to their texts

  lemma AllKeysDistinct()
    ensures forall a, b :: Text(a) == Text(b) ==> a == b
  {
    forall a, b
      ensures Text(a) == Text(b) ==> a == b
    {
      KeysDistinct(a, b);
    }
  }

  ghost function Encode(m: KeyMap): Group {
    AllKeysDistinct();
    map k | k in m :: Text(k) := m[k]
  }

  lemma EncodeGet(m: KeyMap, k: Key)
    ensures Text(k) in Encode(m) <==> k in m
    ensures k in m ==> Encode(m)[Text(k)] == m[k]
  {
    AllKeysDistinct();
  }

  lemma EncodeSet(m: KeyMap, k: Key, v: string)
    ensures Encode(m)[Text(k) := v] == Encode(m[k := v])
  {
    AllKeysDistinct();
    hide Text;
    assert Encode(m)[Text(k) := v] == Encode(m[k := v]);
  }

  // ----- The saved group

  datatype SessionValue = SessionValue(
    target: string, debugger: string, arguments: string,
    environment: seq<(string, string)>, watches: seq<string>, breaks: seq<BreakModel.Break>)

  function AddEnv(m: KeyMap, env: seq<(string, string)>): KeyMap
    decreases |env|
  {
    if env == [] then m
    else
      var n := |env| - 1;
      AddEnv(m, env[..n])[Env(n, EnvName) := env[n].0][Env(n, EnvValue) := env[n].1]
  }

  function AddWatches(m: KeyMap, watches: seq<string>): KeyMap
    decreases |watches|
  {
    if watches == [] then m
    else
      var n := |watches| - 1;
      AddWatches(m, watches[..n])[Watch(n) := watches[n]]
  }

  function Bool(b: bool): string {
    if b then "true" else "false"
  }

  /** What is written for a breakpoint under each of its keys. */
  function BreakText(b: BreakModel.Break, field: BreakField): string {
    match field
    case BreakFile => b.file
    case BreakLine => Int(b.line)
    case BreakCondition => b.condition
    case BreakHits => Int(b.hits)
    case BreakEnabled => Bool(b.enabled)
  }

  function BreakKeys(m: KeyMap, n: nat, b: BreakModel.Break): KeyMap {
    m[Key.Break(n, BreakFile) := b.file][Key.Break(n, BreakLine) := Int(b.line)][Key.Break(n, BreakCondition) := b.condition]
      [Key.Break(n, BreakHits) := Int(b.hits)][Key.Break(n, BreakEnabled) := Bool(b.enabled)]
  }

  function AddBreaks(m: KeyMap, breaks: seq<BreakModel.Break>): KeyMap
    decreases |breaks|
  {
    if breaks == [] then m
    else BreakKeys(AddBreaks(m, breaks[..|breaks| - 1]), |breaks| - 1, breaks[|breaks| - 1])
  }

  function Head(v: SessionValue): KeyMap {
    map[Target := v.target, Debugger := v.debugger, Arguments := v.arguments]
  }

  /** The keys up to those of the environment. */
  function WithEnv(v: SessionValue): KeyMap {
    AddEnv(Head(v)[EnvCount := Int(|v.environment|)], v.environment)
  }

  /** The keys up to those of the watches. */
  function WithWatches(v: SessionValue): KeyMap {
    AddWatches(WithEnv(v)[WatchCount := Int(|v.watches|)], v.watches)
  }

  function Saved(v: SessionValue): KeyMap {
    AddBreaks(WithWatches(v)[BreakCount := Int(|v.breaks|)], v.breaks)
  }

  lemma {:induction false} AddEnvGet(m: KeyMap, env: seq<(string, string)>)
    ensures var m' := AddEnv(m, env);
      && (forall i: nat | i < |env| :: Env(i, EnvName) in m' && m'[Env(i, EnvName)] == env[i].0)
      && (forall i: nat | i < |env| :: Env(i, EnvValue) in m' && m'[Env(i, EnvValue)] == env[i].1)
      && (forall k: Key | !k.Env? :: (k in m' <==> k in m) && (k in m ==> m'[k] == m[k]))
    decreases |env|
  {
    if env != [] { AddEnvGet(m, env[..|env| - 1]); }
  }

  lemma {:induction false} AddWatchesGet(m: KeyMap, watches: seq<string>)
    ensures var m' := AddWatches(m, watches);
      && (forall i: nat | i < |watches| :: Watch(i) in m' && m'[Watch(i)] == watches[i])
      && (forall k: Key | !k.Watch? :: (k in m' <==> k in m) && (k in m ==> m'[k] == m[k]))
    decreases |watches|
  {
    if watches != [] { AddWatchesGet(m, watches[..|watches| - 1]); }
  }

  /** The keys of breakpoint `i`. */
  ghost predicate HasBreak(m: KeyMap, i: nat, b: BreakModel.Break) {
    forall field :: Key.Break(i, field) in m && m[Key.Break(i, field)] == BreakText(b, field)
  }

  lemma BreakKeysGet(m: KeyMap, n: nat, b: BreakModel.Break)
    ensures var m' := BreakKeys(m, n, b);
      && HasBreak(m', n, b)
      && (forall k: Key | !(k.Break? && k.i == n) :: (k in m' <==> k in m) && (k in m ==> m'[k] == m[k]))
  {
    hide Int, Bool;
    var m' := BreakKeys(m, n, b);
    forall field
      ensures Key.Break(n, field) in m' && m'[Key.Break(n, field)] == BreakText(b, field)
    {
      match field
      case BreakFile =>
      case BreakLine =>
      case BreakCondition =>
      case BreakHits =>
      case BreakEnabled =>
    }
  }

  lemma {:induction false} AddBreaksGet(m: KeyMap, breaks: seq<BreakModel.Break>)
    ensures var m' := AddBreaks(m, breaks);
      && (forall i: nat | i < |breaks| :: HasBreak(m', i, breaks[i]))
      && (forall k: Key | !k.Break? :: (k in m' <==> k in m) && (k in m ==> m'[k] == m[k]))
    decreases |breaks|
  {
    hide BreakText, BreakKeys;
    if breaks != [] {
      var n := |breaks| - 1;
      AddBreaksGet(m, breaks[..n]);
      BreakKeysGet(AddBreaks(m, breaks[..n]), n, breaks[n]);
    }
  }

  /** Everything that loading asks for is in the saved group. */
  lemma SavedGet(v: SessionValue)
    ensures var m := Saved(v);
      && Target in m && m[Target] == v.target
      && Debugger in m && m[Debugger] == v.debugger
      && Arguments in m && m[Arguments] == v.arguments
      && EnvCount in m && m[EnvCount] == Int(|v.environment|)
      && WatchCount in m && m[WatchCount] == Int(|v.watches|)
      && BreakCount in m && m[BreakCount] == Int(|v.breaks|)
      && (forall i: nat | i < |v.environment| :: Env(i, EnvName) in m && m[Env(i, EnvName)] == v.environment[i].0)
      && (forall i: nat | i < |v.environment| :: Env(i, EnvValue) in m && m[Env(i, EnvValue)] == v.environment[i].1)
      && (forall i: nat | i < |v.watches| :: Watch(i) in m && m[Watch(i)] == v.watches[i])
      && (forall i: nat | i < |v.breaks| :: HasBreak(m, i, v.breaks[i]))
  {
    hide Int, HasBreak, AddEnv, AddWatches, AddBreaks, WithEnv;
    WithEnvGet(v);
    var w0 := WithEnv(v)[WatchCount := Int(|v.watches|)];
    AddWatchesGet(w0, v.watches);
    var b0 := AddWatches(w0, v.watches)[BreakCount := Int(|v.breaks|)];
    AddBreaksGet(b0, v.breaks);
    var m := AddBreaks(b0, v.breaks);
    forall k: Key | k in WithEnv(v)
      ensures !k.Watch? && !k.Break? && k != WatchCount && k != BreakCount ==> k in m && m[k] == WithEnv(v)[k]
    {
      assert k in w0;
    }
    assert WatchCount in w0;
    assert BreakCount in b0;
    forall i: nat | i < |v.watches|
      ensures Watch(i) in m && m[Watch(i)] == v.watches[i]
    {
      assert Watch(i) in b0;
    }
  }

  lemma WithEnvGet(v: SessionValue)
    ensures var m := WithEnv(v);
      && Target in m && m[Target] == v.target
      && Debugger in m && m[Debugger] == v.debugger
      && Arguments in m && m[Arguments] == v.arguments
      && EnvCount in m && m[EnvCount] == Int(|v.environment|)
      && (forall i: nat | i < |v.environment| :: Env(i, EnvName) in m && m[Env(i, EnvName)] == v.environment[i].0)
      && (forall i: nat | i < |v.environment| :: Env(i, EnvValue) in m && m[Env(i, EnvValue)] == v.environment[i].1)
  {
    hide Int, AddEnv;
    var e0 := Head(v)[EnvCount := Int(|v.environment|)];
    AddEnvGet(e0, v.environment);
    assert Target in e0 && Debugger in e0 && Arguments in e0 && EnvCount in e0;
  }

  // ----- Reading a group

  /** A missing string reads as NULL. */
  function GetString(g: Group, key: string): Option<string> {
    if key in g then Some(g[key]) else None
  }

  /** A missing integer reads as 0. */
  function GetInteger(g: Group, key: string): int {
    if key in g then Atoi(g[key]) else 0
  }

  /** A missing boolean reads as FALSE. */
  function GetBoolean(g: Group, key: string): bool {
    GetString(g, key) == Some("true")
  }

  function OrEmpty(value: Option<string>): string {
    if value.Some? then value.value else ""
  }

  /** How often a loop up to the stored count runs. */
  function Count(g: Group, key: Key): nat {
    var n := GetInteger(g, Text(key));
    if n < 0 then 0 else n
  }

  function LoadedEnv(g: Group, i: nat): (string, string) {
    (OrEmpty(GetString(g, Text(Env(i, EnvName)))), OrEmpty(GetString(g, Text(Env(i, EnvValue)))))
  }

  function LoadedWatch(g: Group, i: nat): string {
    OrEmpty(GetString(g, Text(Watch(i))))
  }

  function LoadedBreak(g: Group, i: nat): BreakModel.Break {
    BreakModel.Break.Break(
      OrEmpty(GetString(g, Text(Key.Break(i, BreakFile)))), GetInteger(g, Text(Key.Break(i, BreakLine))),
      OrEmpty(GetString(g, Text(Key.Break(i, BreakCondition)))), GetBoolean(g, Text(Key.Break(i, BreakEnabled))),
      GetInteger(g, Text(Key.Break(i, BreakHits))), Iter(0, 0))
  }

  function LoadedBreaks(g: Group): (breaks: seq<BreakModel.Break>) {
    seq(Count(g, BreakCount), i requires 0 <= i => LoadedBreak(g, i))
  }

  /** The session that a group describes. */
  function Loaded(g: Group): SessionValue {
    SessionValue(
      OrEmpty(GetString(g, Text(Target))), OrEmpty(GetString(g, Text(Debugger))), OrEmpty(GetString(g, Text(Arguments))),
      seq(Count(g, EnvCount), i requires 0 <= i => LoadedEnv(g, i)),
      seq(Count(g, WatchCount), i requires 0 <= i => LoadedWatch(g, i)),
      LoadedBreaks(g))
  }

  lemma IntReads(m: KeyMap, k: Key, i: int)
    requires k in m && m[k] == Int(i)
    ensures GetInteger(Encode(m), Text(k)) == i
  {
    EncodeGet(m, k);
    AtoiOfInt(i, "");
    assert Int(i) + "" == Int(i);
  }

  lemma BreakReads(m: KeyMap, i: nat, b: BreakModel.Break)
    requires HasBreak(m, i, b)
    ensures LoadedBreak(Encode(m), i) == b.(iter := Iter(0, 0))
  {
    hide Text, Int, Atoi, Encode;
    forall field
      ensures var k := Key.Break(i, field);
        Text(k) in Encode(m) && Encode(m)[Text(k)] == BreakText(b, field)
    {
      EncodeGet(m, Key.Break(i, field));
    }
    IntReads(m, Key.Break(i, BreakLine), b.line);
    IntReads(m, Key.Break(i, BreakHits), b.hits);
  }

  lemma EnvReads(m: KeyMap, i: nat, env: (string, string))
    requires Env(i, EnvName) in m && m[Env(i, EnvName)] == env.0
    requires Env(i, EnvValue) in m && m[Env(i, EnvValue)] == env.1
    ensures LoadedEnv(Encode(m), i) == env
  {
    hide Text, Encode;
    EncodeGet(m, Env(i, EnvName));
    EncodeGet(m, Env(i, EnvValue));
  }

  /** What was saved is loaded again, in the same order; only places in the tree view are not saved. */
  lemma SavedIsLoaded(v: SessionValue)
    ensures var v' := Loaded(Encode(Saved(v)));
      && v'.(breaks := v.breaks) == v
      && |v'.breaks| == |v.breaks|
      && forall i | 0 <= i < |v.breaks| :: v'.breaks[i] == v.breaks[i].(iter := Iter(0, 0))
  {
    hide Text, Encode, Saved, LoadedBreak, LoadedEnv, HasBreak, Int;
    var m := Saved(v);
    SavedGet(v);
    EncodeGet(m, Target);
    EncodeGet(m, Debugger);
    EncodeGet(m, Arguments);
    IntReads(m, EnvCount, |v.environment|);
    IntReads(m, WatchCount, |v.watches|);
    IntReads(m, BreakCount, |v.breaks|);
    var v' := Loaded(Encode(m));
    forall i: nat | i < |v.environment|
      ensures v'.environment[i] == v.environment[i]
    {
      EnvReads(m, i, v.environment[i]);
    }
    forall i: nat | i < |v.watches|
      ensures v'.watches[i] == v.watches[i]
    {
      EncodeGet(m, Watch(i));
    }
    forall i: nat | i < |v.breaks|
      ensures v'.breaks[i] == v.breaks[i].(iter := Iter(0, 0))
    {
      BreakReads(m, i, v.breaks[i]);
    }
  }

  // ----- The key file

  class KeyFile {
    var groups: map<string, Group>

    constructor ()
      ensures groups == map[]
    {
      groups := map[];
    }

    method RemoveGroup(group: string)
      modifies this
      ensures groups == old(groups) - {group}
    {
      groups := groups - {group};
    }

    method SetString(group: string, key: string, value: string)
      modifies this
      ensures groups == old(groups)[group := (if group in old(groups) then old(groups)[group] else map[])[key := value]]
    {
      groups := groups[group := (if group in groups then groups[group] else map[])[key := value]];
    }

    /** The debugger group has the keys of `m`, the other groups are `rest`; a group without keys need not exist. */
    ghost predicate Holds(rest: map<string, Group>, m: KeyMap)
      reads this
    {
      groups == rest[DEBUGGER_GROUP := Encode(m)] || (m == map[] && groups == rest && DEBUGGER_GROUP !in rest)
    }

    /** Sets one key of the debugger group. */
    method SetKey(k: Key, value: string, ghost rest: map<string, Group>, ghost m: KeyMap)
      requires Holds(rest, m)
      modifies this
      ensures Holds(rest, m[k := value])
    {
      EncodeSet(m, k, value);
      assert m == map[] ==> Encode(m) == map[];
      SetString(DEBUGGER_GROUP, Text(k), value);
      assert groups == rest[DEBUGGER_GROUP := Encode(m[k := value])];
    }
  }

  // ----- Breakpoints as a list and as a store

  ghost predicate FitsStore(breaks: seq<BreakModel.Break>) {
    forall i | 0 <= i < |breaks| :: |breaks[i].file| < FILENAME_MAX && |breaks[i].condition| <= CONDITION_MAX_LENGTH
  }

  /** The listed breakpoints as breaks_add makes them: long names and conditions are cut. */
  function Kept(breaks: seq<BreakModel.Break>): (kept: seq<BreakModel.Break>)
    ensures |kept| == |breaks|
    ensures forall i | 0 <= i < |breaks| ::
      kept[i] == NewBreak(breaks[i].file, breaks[i].line, Some(breaks[i].condition), breaks[i].enabled, breaks[i].hits)
  {
    seq(|breaks|, i requires 0 <= i < |breaks| =>
      NewBreak(breaks[i].file, breaks[i].line, Some(breaks[i].condition), breaks[i].enabled, breaks[i].hits))
  }

  lemma KeptFits(breaks: seq<BreakModel.Break>)
    requires FitsStore(breaks) && forall i | 0 <= i < |breaks| :: breaks[i].iter == Iter(0, 0)
    ensures Kept(breaks) == breaks
  {
  }

  lemma ListsStep(s: Store, breaks: seq<BreakModel.Break>, n: nat, b: BreakModel.Break)
    requires n < |breaks| && Lists(s, breaks[..n]) && SameBreak(b, breaks[n])
    ensures Lists(Put(s, b), breaks[..n + 1])
  {
    var s' := Put(s, b);
    var front, longer := breaks[..n], breaks[..n + 1];
    assert forall i | 0 <= i < n :: front[i] == breaks[i] == longer[i];
    assert longer[n] == breaks[n];
    forall f, l | Has(s', f, l)
      ensures ListsPlace(longer, f, l)
    {
      if !(f == b.file && l == b.line) {
        assert Has(s, f, l) && ListsPlace(front, f, l);
        var i :| 0 <= i < n && front[i].file == f && front[i].line == l;
        assert longer[i] == front[i];
      }
    }
    forall i | 0 <= i < |longer| && LastAt(longer, i)
      ensures Holds(s', longer[i])
    {
      if i < n {
        assert LastAt(front, i) && Holds(s, front[i]);
      }
    }
  }

  /** One more breakpoint keeps the places distinct iff its line is unset. */
  lemma DistinctStep(s: Store, breaks: seq<BreakModel.Break>, n: nat)
    requires n < |breaks| && Lists(s, breaks[..n])
    ensures DistinctPlaces(breaks[..n + 1]) <==> DistinctPlaces(breaks[..n]) && !Has(s, breaks[n].file, breaks[n].line)
  {
    hide Lists;
    var front, longer := breaks[..n], breaks[..n + 1];
    assert forall i | 0 <= i < n :: front[i] == breaks[i] == longer[i];
    assert longer[n] == breaks[n];
    ListedIsStored(s, front, breaks[n].file, breaks[n].line);
    if ListsPlace(front, breaks[n].file, breaks[n].line) {
      var i :| 0 <= i < n && front[i].file == breaks[n].file && front[i].line == breaks[n].line;
      assert longer[i].file == longer[n].file && longer[i].line == longer[n].line;
    }
  }

  /** Distinct places stay distinct when they are read back. */
  lemma PlainLists(s: Store, breaks: seq<BreakModel.Break>, plain: seq<BreakModel.Break>)
    requires |plain| == |breaks| && forall i | 0 <= i < |breaks| :: plain[i] == breaks[i].(iter := Iter(0, 0))
    ensures Lists(s, breaks) ==> Lists(s, plain)
    ensures DistinctPlaces(breaks) ==> DistinctPlaces(plain)
    ensures FitsStore(breaks) ==> FitsStore(plain)
  {
    if Lists(s, breaks) {
      forall f, l | Has(s, f, l)
        ensures ListsPlace(plain, f, l)
      {
        assert ListsPlace(breaks, f, l);
        var i :| 0 <= i < |breaks| && breaks[i].file == f && breaks[i].line == l;
        assert plain[i].file == f && plain[i].line == l;
      }
      forall i | 0 <= i < |plain| && LastAt(plain, i)
        ensures Holds(s, plain[i])
      {
        assert LastAt(breaks, i) && Holds(s, breaks[i]);
      }
    }
  }

  /** Breakpoints of a store with distinct places fit if the store does. */
  lemma StoredFits(s: Store, breaks: seq<BreakModel.Break>)
    requires Lists(s, breaks) && DistinctPlaces(breaks) && Sized(s)
    ensures FitsStore(breaks)
  {
    forall i | 0 <= i < |breaks|
      ensures |breaks[i].file| < FILENAME_MAX && |breaks[i].condition| <= CONDITION_MAX_LENGTH
    {
      assert LastAt(breaks, i) && Holds(s, breaks[i]);
    }
  }

  lemma EmptyLists(s: Store, breaks: seq<BreakModel.Break>)
    requires Empty(s)
    ensures Lists(s, breaks[..0]) && DistinctPlaces(breaks[..0])
  {
  }

  ghost predicate Empty(s: Store) {
    forall f, l :: !Has(s, f, l)
  }

  lemma {:induction false} CheckFirstAgrees(s: Store, v: View, n: nat)
    requires n <= |v.order| && Agrees(s, v)
    ensures Agrees(s, CheckFirst(v, n))
  {
    hide CheckRow, Linked, Sorted;
    if n > 0 {
      CheckFirstAgrees(s, v, n - 1);
      CheckRowAgrees(s, CheckFirst(v, n - 1), v.order[n - 1]);
    }
  }

  /** bptree_update_file_nodes keeps store and view in agreement. */
  lemma CheckAllAgrees(s: Store, v: View)
    requires Agrees(s, v)
    ensures Agrees(s, CheckAll(v))
  {
    hide Agrees;
    CheckFirstAgrees(s, v, |v.order|);
  }

  /** A row too many is still there when the checkboxes are up to date. */
  lemma CheckAllOverfull(s: Store, v: View)
    requires Overfull(s, v)
    ensures Overfull(s, CheckAll(v))
  {
    CheckFirstSame(v, |v.order|);
    var f :| FileOverfull(s, v, f);
    assert FileOverfull(s, CheckAll(v), f);
  }

  /** What one iteration of the loading loop does to store and view, whether or not they agree. */
  lemma LoadStep(s: Store, v: View, breaks: seq<BreakModel.Break>, n: nat, b: BreakModel.Break)
    requires n < |breaks| && Lists(s, breaks[..n]) && SameBreak(b, breaks[n])
    requires RowsLinked(v) && OrderLinked(v)
    requires if DistinctPlaces(breaks[..n]) then Agrees(s, v) else Overfull(s, v)
    ensures Lists(Put(s, b), breaks[..n + 1])
    ensures RowsLinked(AddView(v, b)) && OrderLinked(AddView(v, b))
    ensures DistinctPlaces(breaks[..n + 1]) ==> DistinctPlaces(breaks[..n]) && !Has(s, b.file, b.line)
    ensures !DistinctPlaces(breaks[..n + 1]) ==> Overfull(Put(s, b), AddView(v, b))
  {
    hide Lists, RowsLinked, OrderLinked, DistinctPlaces, AddView, Agrees, Overfull, Put;
    ListsStep(s, breaks, n, b);
    DistinctStep(s, breaks, n);
    AddRows(v, b);
    if !DistinctPlaces(breaks[..n]) {
      AddKeepsOverfull(s, v, b);
    } else if Has(s, b.file, b.line) {
      AddTwiceOverfull(s, v, b);
    }
  }

  /** A loaded session has the same breakpoints as the saved one. */
  lemma SaveThenLoad(s: Store, s': Store, v: SessionValue)
    requires Lists(s, v.breaks) && DistinctPlaces(v.breaks) && Sized(s)
    ensures var breaks := Loaded(Encode(Saved(v))).breaks;
      DistinctPlaces(breaks) && Kept(breaks) == breaks && (Lists(s', breaks) ==> SameBreaks(s, s'))
  {
    hide Loaded, Encode, Saved, Kept;
    var v' := Loaded(Encode(Saved(v)));
    SavedIsLoaded(v);
    PlainLists(s, v.breaks, v'.breaks);
    StoredFits(s, v.breaks);
    KeptFits(v'.breaks);
    if Lists(s', v'.breaks) { ListsSame(s, s', v'.breaks); }
  }

  const NO_SESSION := SessionValue("", "", "", [], [], [])

  lemma NoSessionFits()
    ensures var v := Loaded(Encode(Saved(NO_SESSION)));
      v == NO_SESSION && DistinctPlaces(v.breaks) && Kept(v.breaks) == v.breaks
  {
    hide Loaded, Encode, Saved;
    SavedIsLoaded(NO_SESSION);
  }

  // ----- The session

  lemma NothingHeld(keyfile: KeyFile)
    requires DEBUGGER_GROUP !in keyfile.groups
    ensures keyfile.Holds(keyfile.groups, map[])
  {
  }

  lemma SavedHeld(keyfile: KeyFile, before: map<string, Group>, v: SessionValue)
    requires keyfile.Holds(before - {DEBUGGER_GROUP}, Saved(v))
    ensures keyfile.groups == before[DEBUGGER_GROUP := Encode(Saved(v))]
  {
    hide Saved, Encode, Int;
    SavedGet(v);
    assert Target in Saved(v);
    assert (before - {DEBUGGER_GROUP})[DEBUGGER_GROUP := Encode(Saved(v))] == before[DEBUGGER_GROUP := Encode(Saved(v))];
  }

  class DebugSession {
    const breaks: Breakpoints
    var target: string
    var debugger: string
    var commandline: string
    var environment: seq<(string, string)>
    var watches: seq<string>

    constructor (breaks: Breakpoints)
      ensures this.breaks == breaks
      ensures target == "" && debugger == "" && commandline == "" && environment == [] && watches == []
    {
      this.breaks := breaks;
      target, debugger, commandline, environment, watches := "", "", "", [], [];
    }

    /** `v` describes the session. */
    ghost predicate Is(v: SessionValue)
      reads this, breaks.store`contents
    {
      && target == v.target && debugger == v.debugger && commandline == v.arguments
      && environment == v.environment && watches == v.watches
      && Lists(breaks.store.contents, v.breaks)
    }

    /** tpage_get_environment: names and values in turn. */
    method GetEnvironment() returns (list: seq<string>)
      ensures |list| == 2 * |environment|
      ensures forall i | 0 <= i < |environment| :: list[2 * i] == environment[i].0 && list[2 * i + 1] == environment[i].1
    {
      list := [];
      for n := 0 to |environment|
        invariant |list| == 2 * n
        invariant forall i | 0 <= i < n :: list[2 * i] == environment[i].0 && list[2 * i + 1] == environment[i].1
      {
        list := list + [environment[n].0, environment[n].1];
      }
    }

    method SaveEnvironment(keyfile: KeyFile, ghost rest: map<string, Group>, ghost m: KeyMap)
      requires keyfile.Holds(rest, m)
      modifies keyfile
      ensures keyfile.Holds(rest, AddEnv(m[EnvCount := Int(|environment|)], environment))
    {
      hide Text, Encode, Int, KeyFile.Holds;
      var env := GetEnvironment();
      ghost var m0 := m[EnvCount := Int(|environment|)];
      keyfile.SetKey(EnvCount, Int(|env| / 2), rest, m);
      var iter, index := 0, 0;
      while iter < |env|
        invariant iter == 2 * index && index <= |environment|
        invariant keyfile.Holds(rest, AddEnv(m0, environment[..index]))
      {
        ghost var before := AddEnv(m0, environment[..index]);
        assert environment[..index + 1][..index] == environment[..index];
        var name := env[iter];
        iter := iter + 1;
        var value := env[iter];
        keyfile.SetKey(Env(index, EnvName), name, rest, before);
        keyfile.SetKey(Env(index, EnvValue), value, rest, before[Env(index, EnvName) := name]);
        index := index + 1;
        iter := iter + 1;
      }
      assert environment[..index] == environment;
    }

    method SaveWatches(keyfile: KeyFile, ghost rest: map<string, Group>, ghost m: KeyMap)
      requires keyfile.Holds(rest, m)
      modifies keyfile
      ensures keyfile.Holds(rest, AddWatches(m[WatchCount := Int(|watches|)], watches))
    {
      hide Text, Encode, Int, KeyFile.Holds;
      ghost var m0 := m[WatchCount := Int(|watches|)];
      keyfile.SetKey(WatchCount, Int(|watches|), rest, m);
      for index := 0 to |watches|
        invariant keyfile.Holds(rest, AddWatches(m0, watches[..index]))
      {
        assert watches[..index + 1][..index] == watches[..index];
        keyfile.SetKey(Watch(index), watches[index], rest, AddWatches(m0, watches[..index]));
      }
      assert watches[..|watches|] == watches;
    }

    static method SaveBreak(keyfile: KeyFile, index: nat, bp: Breakpoint, ghost rest: map<string, Group>, ghost m: KeyMap)
      requires keyfile.Holds(rest, m)
      modifies keyfile
      ensures keyfile.Holds(rest, BreakKeys(m, index, bp.Value()))
    {
      hide Text, Encode, Int, KeyFile.Holds;
      keyfile.SetKey(Key.Break(index, BreakFile), bp.file, rest, m);
      ghost var m1 := m[Key.Break(index, BreakFile) := bp.file];
      keyfile.SetKey(Key.Break(index, BreakLine), Int(bp.line), rest, m1);
      ghost var m2 := m1[Key.Break(index, BreakLine) := Int(bp.line)];
      keyfile.SetKey(Key.Break(index, BreakCondition), bp.condition, rest, m2);
      ghost var m3 := m2[Key.Break(index, BreakCondition) := bp.condition];
      keyfile.SetKey(Key.Break(index, BreakHits), Int(bp.hitscount), rest, m3);
      ghost var m4 := m3[Key.Break(index, BreakHits) := Int(bp.hitscount)];
      keyfile.SetKey(Key.Break(index, BreakEnabled), Bool(bp.enabled), rest, m4);
    }

    method SaveBreaks(keyfile: KeyFile, ghost rest: map<string, Group>, ghost m: KeyMap) returns (ghost saved: seq<BreakModel.Break>)
      requires keyfile.Holds(rest, m) && breaks.store.Valid()
      modifies keyfile
      ensures Lists(breaks.store.contents, saved) && DistinctPlaces(saved)
      ensures keyfile.Holds(rest, AddBreaks(m[BreakCount := Int(|saved|)], saved))
    {
      hide Text, Encode, Int, BreakKeys, KeyFile.Holds, Lists, DistinctPlaces, BreakStore.Valid;
      var list;
      list, saved := AllBreaks(breaks.store);
      ghost var m0 := m[BreakCount := Int(|saved|)];
      keyfile.SetKey(BreakCount, Int(|list|), rest, m);
      for index := 0 to |list|
        invariant forall i | 0 <= i < |list| :: saved[i] == list[i].Value()
        invariant keyfile.Holds(rest, AddBreaks(m0, saved[..index]))
      {
        assert saved[..index + 1][..index] == saved[..index];
        SaveBreak(keyfile, index, list[index], rest, AddBreaks(m0, saved[..index]));
      }
      assert saved[..|list|] == saved;
    }

    /** save_to_keyfile: whatever the group held before is gone. */
    method SaveToKeyfile(keyfile: KeyFile) returns (ghost v: SessionValue)
      requires breaks.store.Valid()
      modifies keyfile
      ensures Is(v) && DistinctPlaces(v.breaks)
      ensures keyfile.groups == old(keyfile.groups)[DEBUGGER_GROUP := Encode(Saved(v))]
    {
      hide Text, Encode, Int, AddEnv, AddWatches, AddBreaks, KeyFile.Holds, Lists, DistinctPlaces, BreakStore.Valid;
      ghost var rest := keyfile.groups - {DEBUGGER_GROUP};
      keyfile.RemoveGroup(DEBUGGER_GROUP);
      NothingHeld(keyfile);
      keyfile.SetKey(Target, target, rest, map[]);
      keyfile.SetKey(Debugger, debugger, rest, map[Target := target]);
      keyfile.SetKey(Arguments, commandline, rest, map[Target := target, Debugger := debugger]);
      ghost var head: KeyMap := map[Target := target, Debugger := debugger, Arguments := commandline];
      SaveEnvironment(keyfile, rest, head);
      ghost var env := AddEnv(head[EnvCount := Int(|environment|)], environment);
      SaveWatches(keyfile, rest, env);
      ghost var withWatches := AddWatches(env[WatchCount := Int(|watches|)], watches);
      ghost var saved := SaveBreaks(keyfile, rest, withWatches);
      v := SessionValue(target, debugger, commandline, environment, watches, saved);
      SavedHeld(keyfile, old(keyfile.groups), v);
    }

    /** tpage_clear, wtree_remove_all and the effect of breaks_remove_all. */
    method Clear()
      requires breaks.InStep() && breaks.state == Idle
      modifies this, breaks`changed, breaks.store, breaks.store.repr, breaks.tree, breaks.gdb
      ensures target == "" && debugger == "" && commandline == "" && environment == [] && watches == []
      ensures breaks.InStep() && Empty(breaks.store.contents) && breaks.changed == old(breaks.changed)
      ensures breaks.store.repr == old(breaks.store.repr)
    {
      hide Agrees, GdbAgreement.GdbAgrees, Sized, BreakStore.Valid;
      target, debugger, commandline, environment, watches := "", "", "", [], [];
      var changed := breaks.changed;
      var list := breaks.store.GetAll();
      ghost var s, places := breaks.store.contents, breaks.Places(list);
      forall f, l | Has(s, f, l)
        ensures (f, l) in places
      {
        assert Listed(list, f, l);
        var i :| 0 <= i < |list| && list[i].file == f && list[i].line == l;
        assert places[i] == (f, l);
      }
      breaks.RemoveList(list);
      breaks.changed := changed;
    }

    /** The loop of debug_load_from_keyfile over the breakpoints; the flag is not raised while loading. */
    method LoadBreaks(group: Group)
      requires breaks.InStep() && breaks.state == Idle && Empty(breaks.store.contents)
      modifies breaks`changed, breaks.store, breaks.store.repr, breaks.tree, breaks.gdb
      ensures breaks.store.Valid() && OrderLinked(breaks.tree.View())
      ensures breaks.changed == old(breaks.changed) && breaks.state == Idle
      ensures Lists(breaks.store.contents, Kept(LoadedBreaks(group)))
      ensures if DistinctPlaces(Kept(LoadedBreaks(group))) then breaks.InStep() else Overfull(breaks.store.contents, breaks.tree.View())
    {
      hide Text, Atoi, Agrees, GdbAgreement.GdbAgrees, Sized, BreakStore.Valid, DistinctPlaces, Lists, GetString, GetInteger, GetBoolean,
        RowsLinked, OrderLinked, Overfull, AddView, NewIter, Put, DbmGdb.FitsNew;
      var changed := breaks.changed;
      var count := Count(group, BreakCount);
      ghost var kept := Kept(LoadedBreaks(group));
      EmptyLists(breaks.store.contents, kept);
      RowsOf(breaks.store.contents, breaks.tree.View());
      for i := 0 to count
        invariant breaks.store.Valid() && breaks.state == Idle && fresh(breaks.store.repr - old(breaks.store.repr))
        invariant RowsLinked(breaks.tree.View()) && OrderLinked(breaks.tree.View())
        invariant Lists(breaks.store.contents, kept[..i])
        invariant if DistinctPlaces(kept[..i]) then breaks.InStep() else Overfull(breaks.store.contents, breaks.tree.View())
      {
        var file := GetString(group, Text(Key.Break(i, BreakFile)));
        var line := GetInteger(group, Text(Key.Break(i, BreakLine)));
        var condition := GetString(group, Text(Key.Break(i, BreakCondition)));
        var hitscount := GetInteger(group, Text(Key.Break(i, BreakHits)));
        var enabled := GetBoolean(group, Text(Key.Break(i, BreakEnabled)));
        ghost var b := NewBreak(OrEmpty(file), line, condition, enabled, hitscount);
        assert kept[i] == b;
        LoadStep(breaks.store.contents, breaks.tree.View(), kept, i, b.(iter := NewIter(breaks.tree.View(), b.file)));
        ghost var done, added := breaks.Add(OrEmpty(file), line, condition, enabled, hitscount);
      }
      assert kept[..count] == kept;
      breaks.changed := changed;
    }

    method LoadEnvironment(group: Group)
      modifies `environment
      ensures environment == old(environment) + Loaded(group).environment
    {
      hide Text, Atoi, LoadedEnv, LoadedBreaks, LoadedWatch;
      var count := Count(group, EnvCount);
      ghost var env := Loaded(group).environment;
      for i := 0 to count
        invariant environment == old(environment) + env[..i]
      {
        environment := environment + [LoadedEnv(group, i)];
        assert env[..i + 1] == env[..i] + [env[i]];
      }
      assert env[..count] == env;
    }

    method LoadWatches(group: Group)
      modifies `watches
      ensures watches == old(watches) + Loaded(group).watches
    {
      hide Text, Atoi, LoadedEnv, LoadedBreaks, LoadedWatch;
      var count := Count(group, WatchCount);
      ghost var loaded := Loaded(group).watches;
      for i := 0 to count
        invariant watches == old(watches) + loaded[..i]
      {
        watches := watches + [LoadedWatch(group, i)];
        assert loaded[..i + 1] == loaded[..i] + [loaded[i]];
      }
      assert loaded[..count] == loaded;
    }

    /** debug_load_from_keyfile, into a session without breakpoints. */
    method LoadFromKeyfile(keyfile: KeyFile)
      requires DEBUGGER_GROUP in keyfile.groups
      requires breaks.InStep() && breaks.state == Idle && Empty(breaks.store.contents)
      modifies this, breaks`changed, breaks.store, breaks.store.repr, breaks.tree, breaks.gdb
      ensures breaks.changed == old(breaks.changed) && Checked(breaks.tree.View())
      ensures var v := Loaded(keyfile.groups[DEBUGGER_GROUP]);
        && Is(v.(environment := old(environment) + v.environment, watches := old(watches) + v.watches, breaks := Kept(v.breaks)))
        && (breaks.InStep() <==> DistinctPlaces(Kept(v.breaks)))
    {
      hide Text, Atoi, Breakpoints.InStep, BreakStore.Valid, DistinctPlaces, Lists, GetString, GetInteger, LoadedBreak, LoadedBreaks,
        LoadedEnv, LoadedWatch, Overfull, OrderLinked, Kept;
      var group := keyfile.groups[DEBUGGER_GROUP];
      target := OrEmpty(GetString(group, Text(Target)));
      debugger := OrEmpty(GetString(group, Text(Debugger)));
      commandline := OrEmpty(GetString(group, Text(Arguments)));
      LoadEnvironment(group);
      LoadWatches(group);
      LoadBreaks(group);
      UpdateFileNodes();
    }

    /** config_set_debug_defaults, for a key file without the group. */
    static method SetDefaults(keyfile: KeyFile)
      requires DEBUGGER_GROUP !in keyfile.groups
      modifies keyfile
      ensures keyfile.groups == old(keyfile.groups)[DEBUGGER_GROUP := Encode(Saved(NO_SESSION))]
    {
      hide Text, Encode, KeyFile.Holds;
      ghost var rest := keyfile.groups;
      NothingHeld(keyfile);
      keyfile.SetKey(Target, "", rest, map[]);
      keyfile.SetKey(Debugger, "", rest, map[Target := ""]);
      keyfile.SetKey(Arguments, "", rest, map[Target := "", Debugger := ""]);
      ghost var head: KeyMap := Head(NO_SESSION);
      keyfile.SetKey(EnvCount, Int(0), rest, head);
      keyfile.SetKey(WatchCount, Int(0), rest, head[EnvCount := Int(0)]);
      keyfile.SetKey(BreakCount, Int(0), rest, head[EnvCount := Int(0)][WatchCount := Int(0)]);
      assert rest - {DEBUGGER_GROUP} == rest;
      SavedHeld(keyfile, rest, NO_SESSION);
    }

    /** config_set_debug_store, apart from writing the defaults to disk. */
    method SetDebugStore(keyfile: KeyFile)
      requires breaks.InStep() && breaks.state == Idle
      modifies this, keyfile, breaks`changed, breaks.store, breaks.store.repr, breaks.tree, breaks.gdb
      ensures breaks.changed == old(breaks.changed) && Checked(breaks.tree.View())
      ensures if DEBUGGER_GROUP in old(keyfile.groups) then
          var v := Loaded(old(keyfile.groups)[DEBUGGER_GROUP]);
          && keyfile.groups == old(keyfile.groups) && Is(v.(breaks := Kept(v.breaks)))
          && (breaks.InStep() <==> DistinctPlaces(Kept(v.breaks)))
        else keyfile.groups == old(keyfile.groups)[DEBUGGER_GROUP := Encode(Saved(NO_SESSION))] && Is(NO_SESSION) && breaks.InStep()
    {
      hide Encode, Saved, Breakpoints.InStep, DistinctPlaces, Lists, LoadedBreaks, LoadedEnv, LoadedWatch, Checked, Kept;
      Clear();
      if DEBUGGER_GROUP !in keyfile.groups {
        SetDefaults(keyfile);
        NoSessionFits();
      }
      LoadFromKeyfile(keyfile);
      assert [] + Loaded(keyfile.groups[DEBUGGER_GROUP]).environment == Loaded(keyfile.groups[DEBUGGER_GROUP]).environment;
      assert [] + Loaded(keyfile.groups[DEBUGGER_GROUP]).watches == Loaded(keyfile.groups[DEBUGGER_GROUP]).watches;
    }

    /** Saving the session and switching to the same key file brings everything back. */
    method SaveAndReload(keyfile: KeyFile)
      requires breaks.InStep() && breaks.state == Idle
      modifies this, keyfile, breaks`changed, breaks.store, breaks.store.repr, breaks.tree, breaks.gdb
      ensures breaks.InStep() && Checked(breaks.tree.View())
      ensures target == old(target) && debugger == old(debugger) && commandline == old(commandline)
      ensures environment == old(environment) && watches == old(watches)
      ensures SameBreaks(old(breaks.store.contents), breaks.store.contents)
    {
      hide Encode, Saved, Agrees, GdbAgreement.GdbAgrees, Sized, BreakStore.Valid, DistinctPlaces, Lists, LoadedBreaks, LoadedEnv,
        LoadedWatch, Checked, SameBreaks, Kept;
      ghost var s := breaks.store.contents;
      ghost var v := SaveToKeyfile(keyfile);
      SavedIsLoaded(v);
      SaveThenLoad(s, s, v);
      SetDebugStore(keyfile);
      SaveThenLoad(s, breaks.store.contents, v);
    }

    /** bptree_update_file_nodes: afterwards the checkboxes are right, and what agreed or did not still does or does not. */
    method UpdateFileNodes()
      requires breaks.store.Valid() && OrderLinked(breaks.tree.View())
      modifies breaks.tree
      ensures Checked(breaks.tree.View())
      ensures old(breaks.InStep()) ==> breaks.InStep()
      ensures old(Overfull(breaks.store.contents, breaks.tree.View())) ==> !breaks.InStep()
    {
      hide CheckAll, Agrees, Sized, GdbAgreement.GdbAgrees, BreakStore.Valid, Checked, Overfull, OrderLinked;
      ghost var s, v := breaks.store.contents, breaks.tree.View();
      if Agrees(s, v) { CheckAllAgrees(s, v); }
      if Overfull(s, v) {
        CheckAllOverfull(s, v);
        OverfullDisagrees(s, CheckAll(v));
      }
      breaks.tree.UpdateFileNodes();
    }
  }
}
