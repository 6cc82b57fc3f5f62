/**
 * The command-line side of the two entry points, cmd/main.go and main.go,
 * which hold the same code for it: the `--include`, `--var` and `--num` flag
 * lists, their reading into maps, and the order in which `main` writes the
 * variable sources into the template.
 */
module Cli {
  import opened Wrappers
  import Text
  import KeyValue
  import Template
  import Decimal

  /** `Includes`: the `--include` file names, in the order given. */
  class Includes {
    var files: seq<string>

    constructor ()
      ensures files == []
    {
      files := [];
    }

    /** `Set`: appends the value and returns a nil error. */
    method Set(value: string) returns (err: Option<string>)
      modifies this
      ensures files == old(files) + [value]
      ensures err == None
    {
      files := files + [value];
      err := None;
    }
  }

  /** `Variables`: the `--var` entries, in the order given. */
  class Variables {
    var entries: seq<string>

    constructor ()
      ensures entries == []
    {
      entries := [];
    }

    /** `Set`: appends the value and returns a nil error. */
    method Set(value: string) returns (err: Option<string>)
      modifies this
      ensures entries == old(entries) + [value]
      ensures err == None
    {
      entries := entries + [value];
      err := None;
    }

    /**
     * `Values`: each entry cut at its first `=` into key and value; entries
     * without `=` are dropped and a later entry overwrites an earlier one.
     */
    method Values() returns (values: map<string, string>)
      ensures values == KeyValue.Assign(entries, KeyValue.FlagPair)
    {
      values := map[];
      for n := 0 to |entries|
        invariant KeyValue.AssignFrom(values, entries[n..], KeyValue.FlagPair)
                  == KeyValue.Assign(entries, KeyValue.FlagPair)
      {
        var pieces := Text.SplitAtFirst(entries[n], '=');
        if |pieces| > 1 {
          values := values[pieces[0] := pieces[1]];
        }
        assert entries[n..][1..] == entries[n + 1..];
      }
    }
  }

  /** A key is in the `--var` map exactly when some entry with an `=` has it before its first `=`. */
  lemma VarsKeys(entries: seq<string>, key: string)
    ensures key in KeyValue.Assign(entries, KeyValue.FlagPair)
            <==> exists i :: 0 <= i < |entries| && KeyValue.Defines(entries[i], KeyValue.FlagPair, key)
  {
    KeyValue.AssignFromKeys(map[], entries, KeyValue.FlagPair, key);
  }

  /**
   * The value kept for a key is the whole text after the first `=` of the last
   * entry with that key, further `=` included.
   */
  lemma VarsLastWins(entries: seq<string>, i: nat)
    requires i < |entries| && '=' in entries[i]
    requires forall j :: i < j < |entries| ==>
               !KeyValue.Defines(entries[j], KeyValue.FlagPair, KeyValue.FlagPair(entries[i]).value.0)
    ensures var entry := entries[i];
            var cut := Text.FirstIndex(entry, '=');
            var vars := KeyValue.Assign(entries, KeyValue.FlagPair);
            entry[..cut] in vars && vars[entry[..cut]] == entry[cut + 1..]
  {
    var entry := entries[i];
    var kv := KeyValue.FlagPair(entry).value;
    KeyValue.AssignFromLastWins(map[], entries, KeyValue.FlagPair, i);
    var cut := |kv.0|;
    assert entry[cut] == '=' && '=' !in entry[..cut];
    Text.FirstIndexAt(entry, '=', cut);
    assert entry[..cut] == kv.0 && entry[cut + 1..] == kv.1;
  }

  /**
   * `strconv.ParseFloat(text, 64)`, left abstract: the bits of the float read
   * from the text, or `None` when the text is not a number.
   */
  type FloatParser = string -> Option<bv64>

  /**
   * What `Numbers.Values` has built after the given entries, starting from
   * `into`: it stops at the first entry whose value does not parse, returning
   * the map built so far and the error.
   */
  function NumbersFrom(into: map<string, Template.Value>, entries: seq<string>, parse: FloatParser)
    : (map<string, Template.Value>, Option<Decimal.NumError>)
    decreases |entries|
  {
    if entries == [] then (into, None)
    else
      match KeyValue.FlagPair(entries[0])
      case None => NumbersFrom(into, entries[1..], parse)
      case Some(kv) =>
        match parse(kv.1)
        case None => (into, Some(Decimal.NumError(kv.1)))
        case Some(bits) => NumbersFrom(into[kv.0 := Template.Float(bits)], entries[1..], parse)
  }

  function NumberValues(entries: seq<string>, parse: FloatParser): (map<string, Template.Value>, Option<Decimal.NumError>)
  {
    NumbersFrom(map[], entries, parse)
  }

  /** The entry has an `=` and the text after it is not a number. */
  predicate Unparsable(entry: string, parse: FloatParser)
  {
    KeyValue.FlagPair(entry).Some? && parse(KeyValue.FlagPair(entry).value.1).None?
  }

  /** `Numbers`: the `--num` entries, in the order given. */
  class Numbers {
    var entries: seq<string>

    constructor ()
      ensures entries == []
    {
      entries := [];
    }

    /** `Set`: appends the value and returns a nil error. */
    method Set(value: string) returns (err: Option<string>)
      modifies this
      ensures entries == old(entries) + [value]
      ensures err == None
    {
      entries := entries + [value];
      err := None;
    }

    /**
     * `Values`: as `Variables.Values`, with each value read as a float; the
     * first value that does not parse ends the loop with its error.
     */
    method Values(parse: FloatParser) returns (values: map<string, Template.Value>, err: Option<Decimal.NumError>)
      ensures (values, err) == NumberValues(entries, parse)
    {
      values := map[];
      err := None;
      for n := 0 to |entries|
        invariant NumbersFrom(values, entries[n..], parse) == NumberValues(entries, parse)
      {
        var pieces := Text.SplitAtFirst(entries[n], '=');
        assert entries[n..][1..] == entries[n + 1..];
        if |pieces| > 1 {
          var parsed := parse(pieces[1]);
          if parsed.None? {
            err := Some(Decimal.NumError(pieces[1]));
            return;
          }
          values := values[pieces[0] := Template.Float(parsed.value)];
        }
      }
    }
  }

  /** `Numbers.Values` fails exactly when some entry's value does not parse. */
  lemma {:induction false} NumbersFail(into: map<string, Template.Value>, entries: seq<string>, parse: FloatParser)
    ensures NumbersFrom(into, entries, parse).1.Some?
            <==> exists i :: 0 <= i < |entries| && Unparsable(entries[i], parse)
    decreases |entries|
  {
    if entries != [] {
      var rest := entries[1..];
      assert forall i :: 0 <= i < |rest| ==> rest[i] == entries[i + 1];
      if !Unparsable(entries[0], parse) {
        match KeyValue.FlagPair(entries[0])
        case None => NumbersFail(into, rest, parse);
        case Some(kv) => NumbersFail(into[kv.0 := Template.Float(parse(kv.1).value)], rest, parse);
        if exists i :: 0 <= i < |entries| && Unparsable(entries[i], parse) {
          var i :| 0 <= i < |entries| && Unparsable(entries[i], parse);
          assert Unparsable(rest[i - 1], parse);
        }
      }
    }
  }

  /** The error names the value of the first entry that does not parse. */
  lemma {:induction false} NumbersFirstError(into: map<string, Template.Value>, entries: seq<string>,
                                             parse: FloatParser, i: nat)
    requires i < |entries| && Unparsable(entries[i], parse)
    requires forall j :: 0 <= j < i ==> !Unparsable(entries[j], parse)
    ensures NumbersFrom(into, entries, parse).1 == Some(Decimal.NumError(KeyValue.FlagPair(entries[i]).value.1))
    decreases i
  {
    if i > 0 {
      var rest := entries[1..];
      assert rest[i - 1] == entries[i];
      assert forall j :: 0 <= j < i - 1 ==> rest[j] == entries[j + 1];
      assert !Unparsable(entries[0], parse);
      match KeyValue.FlagPair(entries[0])
      case None => NumbersFirstError(into, rest, parse, i - 1);
      case Some(kv) => NumbersFirstError(into[kv.0 := Template.Float(parse(kv.1).value)], rest, parse, i - 1);
    }
  }

  /**
   * When every value parses, `Numbers.Values` has the keys `Variables.Values`
   * would give for the same entries, each bound to its value read as a float.
   */
  lemma {:induction false} NumbersSplitLikeVars(intoNums: map<string, Template.Value>, intoVars: map<string, string>,
                                                entries: seq<string>, parse: FloatParser)
    requires intoNums.Keys == intoVars.Keys
    requires forall k :: k in intoVars ==> parse(intoVars[k]).Some? && intoNums[k] == Template.Float(parse(intoVars[k]).value)
    requires NumbersFrom(intoNums, entries, parse).1.None?
    ensures var nums := NumbersFrom(intoNums, entries, parse).0;
            var vars := KeyValue.AssignFrom(intoVars, entries, KeyValue.FlagPair);
            nums.Keys == vars.Keys
            && forall k :: k in vars ==> parse(vars[k]).Some? && nums[k] == Template.Float(parse(vars[k]).value)
    decreases |entries|
  {
    if entries != [] {
      match KeyValue.FlagPair(entries[0])
      case None => NumbersSplitLikeVars(intoNums, intoVars, entries[1..], parse);
      case Some(kv) =>
        var bits := parse(kv.1).value;
        NumbersSplitLikeVars(intoNums[kv.0 := Template.Float(bits)], intoVars[kv.0 := kv.1], entries[1..], parse);
    }
  }

  /** The `--var` values as template values: strings. */
  function StringValues(m: map<string, string>): (r: map<string, Template.Value>)
    ensures r.Keys == m.Keys
    ensures forall k :: k in m ==> r[k] == Template.Str(m[k])
  {
    map k | k in m :: Template.Str(m[k])
  }

  /**
   * The variables after the vars file, then the `--var` values, then the
   * `--num` values are written over `base`: for a shared key `--num` beats
   * `--var`, which beats the vars file, which beats what was there.
   */
  function Layered(base: map<string, Template.Value>, file: map<string, Template.Value>,
                   vars: map<string, string>, nums: map<string, Template.Value>): (r: map<string, Template.Value>)
    ensures r.Keys == base.Keys + file.Keys + vars.Keys + nums.Keys
    ensures forall k :: k in nums ==> r[k] == nums[k]
    ensures forall k :: k in vars && k !in nums ==> r[k] == Template.Str(vars[k])
    ensures forall k :: k in file && k !in vars && k !in nums ==> r[k] == file[k]
    ensures forall k :: k in base && k !in file && k !in vars && k !in nums ==> r[k] == base[k]
  {
    base + file + StringValues(vars) + nums
  }

  /** A map with no entries is the empty map. */
  lemma EmptyLayer(m: map<string, Template.Value>)
    requires |m| == 0
    ensures m == map[]
  {
    assert |m.Keys| == 0;
  }

  /**
   * One of `main`'s guarded loops: when `layer` is not empty, `WithVar` for
   * every entry, in whichever order the keys come, as Go's map iteration
   * order is unspecified.
   */
  method WithVars(t: Template.Template, layer: map<string, Template.Value>)
    modifies t
    ensures t.vars == old(t.vars) + layer
    ensures t.name == old(t.name) && t.body == old(t.body) && t.env == old(t.env)
  {
    if |layer| == 0 {
      EmptyLayer(layer);
      return;
    }
    var temp := t;
    var pending := layer.Keys;
    while pending != {}
      invariant temp == t && pending <= layer.Keys
      invariant t.vars == old(t.vars) + (map k | k in layer.Keys - pending :: layer[k])
      invariant t.name == old(t.name) && t.body == old(t.body) && t.env == old(t.env)
      decreases pending
    {
      var key :| key in pending;
      ghost var done := map k | k in layer.Keys - pending :: layer[k];
      temp := temp.WithVar(key, layer[key]);
      pending := pending - {key};
      assert (map k | k in layer.Keys - pending :: layer[k]) == done[key := layer[key]];
    }
    assert (map k | k in layer.Keys - pending :: layer[k]) == layer;
  }

  /**
   * The variable layering of `main`: the vars file (an empty map when no
   * `-v` is given), then the `--var` values, then the `--num` values. When a
   * `--num` value does not parse, `main` stops (`log.Fatal`) with the first
   * two layers written and the template never rendered.
   */
  method ApplyVariables(t: Template.Template, fileVars: map<string, Template.Value>,
                        variables: Variables, numbers: Numbers, parse: FloatParser)
    returns (err: Option<Decimal.NumError>)
    modifies t
    ensures err == NumberValues(numbers.entries, parse).1
    ensures err.None? ==>
              t.vars == Layered(old(t.vars), fileVars, KeyValue.Assign(variables.entries, KeyValue.FlagPair),
                                NumberValues(numbers.entries, parse).0)
    ensures err.Some? ==>
              t.vars == old(t.vars) + fileVars + StringValues(KeyValue.Assign(variables.entries, KeyValue.FlagPair))
    ensures t.name == old(t.name) && t.body == old(t.body) && t.env == old(t.env)
  {
    WithVars(t, fileVars);
    var vars := variables.Values();
    WithVars(t, StringValues(vars));
    ghost var afterVars := old(t.vars) + fileVars + StringValues(vars);
    assert t.vars == afterVars;
    var numVars, numErr := numbers.Values(parse);
    if numErr.Some? {
      return numErr;
    }
    WithVars(t, numVars);
    assert t.vars == afterVars + numVars;
    err := None;
  }

  /** `--var replicas=2` names the key `replicas` with the value `2`. */
  lemma ReplicasPair()
    ensures KeyValue.FlagPair("replicas=2") == Some(("replicas", "2"))
  {
    var entry := "replicas=2";
    assert entry[..8] == "replicas" && entry[9..] == "2";
    Text.FirstIndexAt(entry, '=', 8);
  }

  /** A single `--var replicas=2` gives the variable map `{replicas: 2}`. */
  lemma ReplicasFlag()
    ensures KeyValue.Assign(["replicas=2"], KeyValue.FlagPair) == map["replicas" := "2"]
  {
    ReplicasPair();
    KeyValue.AssignSingle("replicas=2", KeyValue.FlagPair);
  }

  /** A vars file sets `replicas` to 1 and `--var replicas=2` is given: the flag wins. */
  lemma FlagBeatsVarsFile()
    ensures var vars := KeyValue.Assign(["replicas=2"], KeyValue.FlagPair);
            Layered(map[], map["replicas" := Template.Int(1)], vars, map[])["replicas"] == Template.Str("2")
  {
    ReplicasFlag();
  }
}
