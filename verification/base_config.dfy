/** The positional configuration lookups of src/BaseClass.py. A pipeline
    configuration lists the steps ("modules") in order; step `run_num`
    reads its own options, the latest value of an option set by an earlier
    step, or the options of an earlier step with a given name. Option
    values are JSON values, left abstract as `V`. */
module BaseConfig {
  import opened Wrappers
  import Text

  /** The options of one step: a JSON object. */
  type Options<V> = map<string, V>

  /** The loaded configuration: the `modules` list and the `main_config`
      object, which may be missing. */
  datatype Config<V> = Config(modules: seq<Options<V>>, mainConfig: Option<Options<V>>)

  const NameKey: string := "name"
  const MainConfigKey: string := "main_config"

  // ---------------------------------------------------------------- get_last_config

  /** The value of `key` in the highest-numbered step among 1..i that sets
      it. Step 0 is never looked at. */
  function FindKey<V>(modules: seq<Options<V>>, i: nat, key: string): (r: Option<V>)
    requires i < |modules|
    ensures r.None? <==> forall j :: 1 <= j <= i ==> key !in modules[j]
    ensures r.Some? ==> exists j :: (1 <= j <= i && key in modules[j] && modules[j][key] == r.value &&
      forall k :: j < k <= i ==> key !in modules[k])
  {
    if i == 0 then None
    else if key in modules[i] then Some(modules[i][key])
    else FindKey(modules, i - 1, key)
  }

  /** `main_config.get(key, None)`; a configuration without `main_config`
      raises KeyError. */
  function MainGet<V>(cfg: Config<V>, key: string): (r: Result<Option<V>>)
    ensures cfg.mainConfig.None? <==> r == Err(KeyError(MainConfigKey))
    ensures cfg.mainConfig.Some? && key in cfg.mainConfig.value ==> r == Ok(Some(cfg.mainConfig.value[key]))
    ensures cfg.mainConfig.Some? && key !in cfg.mainConfig.value ==> r == Ok(None)
  {
    match cfg.mainConfig
    case None => Err(KeyError(MainConfigKey))
    case Some(m) => Ok(if key in m then Some(m[key]) else None)
  }

  /** `get_last_config`: steps run_num, run_num - 1, ..., 1 are searched
      for `key`, the first hit wins; otherwise the main configuration is
      asked, giving None when it lacks the key. A run number past the end
      of the list raises IndexError on the first probe, and `range(None,
      ...)` raises TypeError. */
  function GetLastConfig<V>(cfg: Config<V>, runNum: Option<int>, key: string): (r: Result<Option<V>>)
    ensures runNum.None? <==> r == Err(TypeError)
    ensures runNum.Some? && runNum.value >= 1 && runNum.value >= |cfg.modules| ==> r == Err(IndexError)
    ensures runNum.Some? && 1 <= runNum.value < |cfg.modules| ==>
      (forall j :: 1 <= j <= runNum.value ==> key !in cfg.modules[j]) ==> r == MainGet(cfg, key)
    ensures runNum.Some? && 1 <= runNum.value < |cfg.modules| ==>
      forall j :: (1 <= j <= runNum.value && key in cfg.modules[j] &&
        (forall k :: j < k <= runNum.value ==> key !in cfg.modules[k])) ==> r == Ok(Some(cfg.modules[j][key]))
    ensures runNum.Some? && runNum.value < 1 ==> r == MainGet(cfg, key)
  {
    match runNum
    case None => Err(TypeError)
    case Some(n) =>
      if n < 1 then MainGet(cfg, key)
      else if n >= |cfg.modules| then Err(IndexError)
      else
        match FindKey(cfg.modules, n, key)
        case Some(v) => Ok(Some(v))
        case None => MainGet(cfg, key)
  }

  /** Step 0 is never consulted: replacing its options changes nothing. */
  lemma LastConfigIgnoresStepZero<V>(cfg: Config<V>, runNum: Option<int>, key: string, first: Options<V>)
    requires |cfg.modules| > 0
    ensures GetLastConfig(cfg.(modules := cfg.modules[0 := first]), runNum, key) == GetLastConfig(cfg, runNum, key)
  {
    if runNum.Some? && 1 <= runNum.value < |cfg.modules| {
      FindKeyIgnoresStepZero(cfg.modules, runNum.value, key, first);
    }
  }

  lemma {:induction false} FindKeyIgnoresStepZero<V>(modules: seq<Options<V>>, i: nat, key: string, first: Options<V>)
    requires i < |modules|
    ensures FindKey(modules[0 := first], i, key) == FindKey(modules, i, key)
  {
    if i > 0 {
      var m := modules[0 := first];
      assert m[i] == modules[i];
      if key !in modules[i] {
        FindKeyIgnoresStepZero(modules, i - 1, key, first);
        assert FindKey(m, i, key) == FindKey(m, i - 1, key);
      }
    }
  }

  // ---------------------------------------------------------------- get_other_module_config

  /** The options name the step `name`. */
  predicate Matches<V(==)>(m: Options<V>, name: V) {
    NameKey in m && m[NameKey] == name
  }

  /** The options name some other step. */
  predicate Skips<V(==)>(m: Options<V>, name: V) {
    NameKey in m && m[NameKey] != name
  }

  /** `get_other_module_config`: steps run_num down to 1 are searched for
      one named `name`, the first hit wins and None means no such step. A
      step without a name on the way raises KeyError, a run number past the
      end IndexError, and no run number TypeError. */
  function GetOtherModuleConfig<V(==)>(cfg: Config<V>, runNum: Option<int>, name: V): (r: Result<Option<Options<V>>>)
    ensures runNum.None? <==> r == Err(TypeError)
    ensures runNum.Some? && runNum.value >= 1 && runNum.value >= |cfg.modules| ==> r == Err(IndexError)
    ensures runNum.Some? && runNum.value < 1 ==> r == Ok(None)
    ensures runNum.Some? && 1 <= runNum.value < |cfg.modules| ==> LastNamedSpec(cfg.modules, runNum.value, name, r)
  {
    match runNum
    case None => Err(TypeError)
    case Some(n) =>
      if n < 1 then Ok(None)
      else if n >= |cfg.modules| then Err(IndexError)
      else LastNamed(cfg.modules, n, name)
  }

  /** What the downward search over steps i, ..., 1 gives: the highest
      matching step, with every step above it named differently; None when
      every step is named and none matches; KeyError for the highest
      unnamed step when no step above it matches. */
  ghost predicate LastNamedSpec<V>(modules: seq<Options<V>>, i: nat, name: V, r: Result<Option<Options<V>>>)
    requires i < |modules|
  {
    (r.Ok? && r.value.Some? ==> exists j :: (1 <= j <= i && modules[j] == r.value.value && Matches(modules[j], name) &&
       forall k :: j < k <= i ==> Skips(modules[k], name))) &&
    (r == Ok(None) <==> forall j :: 1 <= j <= i ==> Skips(modules[j], name)) &&
    (r.Err? ==> r.error == KeyError(NameKey) && exists j :: (1 <= j <= i && NameKey !in modules[j] &&
       forall k :: j < k <= i ==> Skips(modules[k], name)))
  }

  function LastNamed<V(==)>(modules: seq<Options<V>>, i: nat, name: V): (r: Result<Option<Options<V>>>)
    requires i < |modules|
    ensures LastNamedSpec(modules, i, name, r)
  {
    if i == 0 then Ok(None)
    else if NameKey !in modules[i] then Err(KeyError(NameKey))
    else if modules[i][NameKey] == name then Ok(Some(modules[i]))
    else LastNamed(modules, i - 1, name)
  }

  // ---------------------------------------------------------------- get_module_config

  /** What the upward search over steps from..|modules|-1 gives: the lowest
      matching step, every step before it named differently; `{}` when
      every step is named and none matches; KeyError for the lowest
      unnamed step when no earlier step matches. */
  ghost predicate FirstNamedSpec<V>(modules: seq<Options<V>>, from: nat, name: V, r: Result<Options<V>>)
    requires from <= |modules|
  {
    (r.Ok? && r.value != map[] ==> exists j :: (from <= j < |modules| && modules[j] == r.value && Matches(modules[j], name) &&
       forall k :: from <= k < j ==> Skips(modules[k], name))) &&
    (r == Ok(map[]) <==> forall j :: from <= j < |modules| ==> Skips(modules[j], name)) &&
    (r.Err? ==> r.error == KeyError(NameKey) && exists j :: (from <= j < |modules| && NameKey !in modules[j] &&
       forall k :: from <= k < j ==> Skips(modules[k], name)))
  }

  function FirstNamed<V(==)>(modules: seq<Options<V>>, from: nat, name: V): (r: Result<Options<V>>)
    requires from <= |modules|
    ensures FirstNamedSpec(modules, from, name, r)
    decreases |modules| - from
  {
    if from == |modules| then Ok(map[])
    else if NameKey !in modules[from] then Err(KeyError(NameKey))
    else if modules[from][NameKey] == name then Ok(modules[from])
    else FirstNamed(modules, from + 1, name)
  }

  /** `get_module_config`. Without a run number the first step named by
      the class's qualified name `fqn` is taken; with one, that entry of
      the list, where a negative number counts from the end as Python
      indexing does and one below -len raises IndexError. Either way a
      miss gives the empty object: the `elif` is not evaluated when the
      run number is None, so no comparison of None with an int happens. */
  function GetModuleConfig<V(==)>(cfg: Config<V>, runNum: Option<int>, fqn: V): (r: Result<Options<V>>)
    ensures runNum.None? ==> FirstNamedSpec(cfg.modules, 0, fqn, r)
    ensures runNum.Some? && 0 <= runNum.value < |cfg.modules| ==> r == Ok(cfg.modules[runNum.value])
    ensures runNum.Some? && runNum.value >= |cfg.modules| ==> r == Ok(map[])
    ensures runNum.Some? && -|cfg.modules| <= runNum.value < 0 ==> r == Ok(cfg.modules[|cfg.modules| + runNum.value])
    ensures runNum.Some? && runNum.value < -|cfg.modules| ==> r == Err(IndexError)
  {
    match runNum
    case None => FirstNamed(cfg.modules, 0, fqn)
    case Some(n) =>
      if n >= |cfg.modules| then Ok(map[])
      else if n >= 0 then Ok(cfg.modules[n])
      else if n >= -|cfg.modules| then Ok(cfg.modules[|cfg.modules| + n])
      else Err(IndexError)
  }

  /** Every step has a name and no two steps share one. */
  predicate UniquelyNamed<V(==)>(modules: seq<Options<V>>) {
    (forall j :: 0 <= j < |modules| ==> NameKey in modules[j]) &&
    forall j, k :: 0 <= j < k < |modules| ==> modules[j][NameKey] != modules[k][NameKey]
  }

  /** With uniquely named steps the two ways of finding a step's options
      agree: by its position and by its name. */
  lemma ByNameIsByPosition<V>(cfg: Config<V>, n: nat)
    requires n < |cfg.modules| && UniquelyNamed(cfg.modules)
    ensures GetModuleConfig(cfg, None, cfg.modules[n][NameKey]) == GetModuleConfig(cfg, Some(n), cfg.modules[n][NameKey])
  {
    var name := cfg.modules[n][NameKey];
    assert forall k :: 0 <= k < n ==> Skips(cfg.modules[k], name);
    FirstNamedReaches(cfg.modules, 0, n, name);
  }

  /** The upward search passes over steps named differently. */
  lemma {:induction false} FirstNamedReaches<V>(modules: seq<Options<V>>, from: nat, n: nat, name: V)
    requires from <= n < |modules| && Matches(modules[n], name)
    requires forall k :: from <= k < n ==> Skips(modules[k], name)
    ensures FirstNamed(modules, from, name) == Ok(modules[n])
    decreases n - from
  {
    if from < n {
      FirstNamedReaches(modules, from + 1, n, name);
    }
  }

  // ---------------------------------------------------------------- get_step_identifier

  /** Python `str` of an optional run number. */
  function RunNumText(runNum: Option<int>): string {
    match runNum
    case None => "None"
    case Some(n) => Text.IntToString(n)
  }

  /** `get_step_identifier`: the run number, an underscore and the class
      name, used as the step's output directory. */
  function StepIdentifier(runNum: Option<int>, className: string): (r: string)
    ensures |r| > |className| && r[|r| - |className|..] == className
  {
    RunNumText(runNum) + "_" + className
  }

  /** Index of the first `c` in `s`, or `|s|`. */
  function FindChar(s: string, c: char): (k: nat)
    ensures k <= |s|
    ensures forall j :: 0 <= j < k ==> s[j] != c
    ensures k < |s| ==> s[k] == c
  {
    if |s| == 0 || s[0] == c then 0 else 1 + FindChar(s[1..], c)
  }

  /** Reads an identifier back: the run number before the first underscore,
      the class name after it. */
  function ParseStepIdentifier(id: string): (r: Result<(Option<int>, string)>)
    ensures r.Ok? ==> StepIdentifier(r.value.0, r.value.1) == id
  {
    var k := FindChar(id, '_');
    if k == |id| then Err(ValueError("no underscore"))
    else
      assert id == id[..k] + "_" + id[k + 1..];
      if id[..k] == "None" then Ok((None, id[k + 1..]))
      else
        match Text.ParseInt(id[..k])
        case Err(e) => Err(e)
        case Ok(n) =>
          if Text.IntToString(n) == id[..k] then Ok((Some(n), id[k + 1..]))
          else Err(ValueError("not a canonical run number"))
  }

  /** Run numbers are written without underscores. */
  lemma RunNumTextHasNoUnderscore(runNum: Option<int>)
    ensures forall j :: 0 <= j < |RunNumText(runNum)| ==> RunNumText(runNum)[j] != '_'
  {
    if runNum.Some? {
      var n := runNum.value;
      var d := Text.NatToString(if n < 0 then -n else n);
      assert forall j :: 0 <= j < |d| ==> Text.IsDigit(d[j]);
    }
  }

  /** The identifier determines the run number and the class name, even
      when the class name itself contains underscores. */
  lemma StepIdentifierRoundTrip(runNum: Option<int>, className: string)
    ensures ParseStepIdentifier(StepIdentifier(runNum, className)) == Ok((runNum, className))
  {
    var id := StepIdentifier(runNum, className);
    var t := RunNumText(runNum);
    RunNumTextHasNoUnderscore(runNum);
    assert id[|t|] == '_';
    var k := FindChar(id, '_');
    assert forall j :: 0 <= j < |t| ==> id[j] == t[j];
    assert k == |t|;
    assert id[..k] == t && id[k + 1..] == className;
    match runNum
    case None =>
    case Some(n) =>
      Text.IntRoundTrip(n);
      assert t != "None" by {
        assert t[0] == '-' || Text.IsDigit(t[0]);
      }
  }
}
