/**
 * Building a string map from a list of `KEY=VALUE` entries, as `parseEnvVars`
 * (template/template.go) and `Variables.Values` (cmd/main.go, main.go) do: each
 * entry is read into an optional pair and the pairs are written into the map
 * in list order, so a later entry overwrites an earlier one with the same key.
 */
module KeyValue {
  import opened Wrappers
  import Text

  /**
   * How `parseEnvVars` reads one environment entry: `strings.Split` on `=`,
   * keeping the first piece as the key and the second as the value. An entry
   * without `=` gives nothing.
   */
  function EnvPair(entry: string): (p: Option<(string, string)>)
    ensures p.Some? <==> '=' in entry
  {
    var parts := Text.Split(entry, '=');
    if |parts| > 1 then Some((parts[0], parts[1])) else None
  }

  /**
   * The key of an environment entry is the text before its first `=`; the
   * value is only the text between the first `=` and the next one, so any
   * further `=` and whatever follows it are lost.
   */
  lemma EnvPairShape(entry: string)
    requires '=' in entry
    ensures var i := Text.FirstIndex(entry, '=');
            var rest := entry[i + 1..];
            EnvPair(entry) == Some((entry[..i], rest[..Text.FirstIndex(rest, '=')]))
            && '=' !in EnvPair(entry).value.0 && '=' !in EnvPair(entry).value.1
  {
    Text.SplitSecond(entry, '=');
    Text.SplitPiecesHaveNoSeparator(entry, '=', 0);
    Text.SplitPiecesHaveNoSeparator(entry, '=', 1);
  }

  /**
   * How `Variables.Values` and `Numbers.Values` read one command-line entry:
   * `strings.SplitN(entry, "=", 2)`, i.e. the entry cut at its first `=`. An
   * entry without `=` gives nothing.
   */
  function FlagPair(entry: string): (p: Option<(string, string)>)
    ensures p.Some? <==> '=' in entry
    ensures p.Some? ==> '=' !in p.value.0 && entry == p.value.0 + "=" + p.value.1
  {
    var pieces := Text.SplitAtFirst(entry, '=');
    if |pieces| > 1 then Some((pieces[0], pieces[1])) else None
  }

  /** The two readings differ once a value holds a further `=`. */
  lemma EnvAndFlagPairsDiffer()
    ensures EnvPair("OPTS=a=b") == Some(("OPTS", "a"))
    ensures FlagPair("OPTS=a=b") == Some(("OPTS", "a=b"))
  {
    var entry := "OPTS=a=b";
    assert entry[..4] == "OPTS" && entry[5..] == "a=b" && "a=b"[..1] == "a";
    Text.FirstIndexAt(entry, '=', 4);
    Text.FirstIndexAt("a=b", '=', 1);
    EnvPairShape(entry);
  }

  /** One entry: its pair, if it has one, is the whole map. */
  lemma AssignSingle(entry: string, pair: string -> Option<(string, string)>)
    ensures pair(entry).None? ==> Assign([entry], pair) == map[]
    ensures pair(entry).Some? ==> Assign([entry], pair) == map[pair(entry).value.0 := pair(entry).value.1]
  {
    var entries := [entry];
    assert entries[0] == entry && entries[1..] == [];
    assert Assign(entries, pair) == AssignFrom(map[], entries, pair);
  }

  /** The entry gives a pair whose key is `key`. */
  predicate Defines(entry: string, pair: string -> Option<(string, string)>, key: string)
  {
    pair(entry).Some? && pair(entry).value.0 == key
  }

  /**
   * The map `into` after the pair of every entry that has one is written into
   * it, first entry first.
   */
  function AssignFrom(into: map<string, string>, entries: seq<string>,
                      pair: string -> Option<(string, string)>): map<string, string>
    decreases |entries|
  {
    if entries == [] then into
    else
      var next := match pair(entries[0])
        case None => into
        case Some(kv) => into[kv.0 := kv.1];
      AssignFrom(next, entries[1..], pair)
  }

  /** The map built from an empty one, as both Go loops start from `map[string]string{}`. */
  function Assign(entries: seq<string>, pair: string -> Option<(string, string)>): map<string, string>
  {
    AssignFrom(map[], entries, pair)
  }

  /** A key ends up in the map exactly when it was there already or some entry defines it. */
  lemma {:induction false} AssignFromKeys(into: map<string, string>, entries: seq<string>,
                                          pair: string -> Option<(string, string)>, key: string)
    ensures key in AssignFrom(into, entries, pair)
            <==> key in into || exists i :: 0 <= i < |entries| && Defines(entries[i], pair, key)
    decreases |entries|
  {
    if entries != [] {
      var next := match pair(entries[0])
        case None => into
        case Some(kv) => into[kv.0 := kv.1];
      AssignFromKeys(next, entries[1..], pair, key);
      if exists i :: 0 <= i < |entries| && Defines(entries[i], pair, key) {
        var i :| 0 <= i < |entries| && Defines(entries[i], pair, key);
        if i > 0 {
          assert Defines(entries[1..][i - 1], pair, key);
        }
      }
      if exists i :: 0 <= i < |entries[1..]| && Defines(entries[1..][i], pair, key) {
        var i :| 0 <= i < |entries[1..]| && Defines(entries[1..][i], pair, key);
        assert Defines(entries[i + 1], pair, key);
      }
    }
  }

  /** A key that no entry defines keeps the value it had in `into`. */
  lemma {:induction false} AssignFromKeeps(into: map<string, string>, entries: seq<string>,
                                           pair: string -> Option<(string, string)>, key: string)
    requires key in into
    requires forall i :: 0 <= i < |entries| ==> !Defines(entries[i], pair, key)
    ensures key in AssignFrom(into, entries, pair) && AssignFrom(into, entries, pair)[key] == into[key]
    decreases |entries|
  {
    if entries != [] {
      var next := match pair(entries[0])
        case None => into
        case Some(kv) => into[kv.0 := kv.1];
      assert !Defines(entries[0], pair, key);
      assert forall i :: 0 <= i < |entries[1..]| ==> entries[1..][i] == entries[i + 1];
      AssignFromKeeps(next, entries[1..], pair, key);
    }
  }

  /**
   * Last writer wins: the value stored for a key is the one given by the last
   * entry that defines that key.
   */
  lemma {:induction false} AssignFromLastWins(into: map<string, string>, entries: seq<string>,
                                              pair: string -> Option<(string, string)>, i: nat)
    requires i < |entries| && pair(entries[i]).Some?
    requires forall j :: i < j < |entries| ==> !Defines(entries[j], pair, pair(entries[i]).value.0)
    ensures var kv := pair(entries[i]).value;
            kv.0 in AssignFrom(into, entries, pair) && AssignFrom(into, entries, pair)[kv.0] == kv.1
    decreases |entries|
  {
    var next := match pair(entries[0])
      case None => into
      case Some(kv) => into[kv.0 := kv.1];
    var key := pair(entries[i]).value.0;
    if i == 0 {
      assert forall j :: 0 <= j < |entries[1..]| ==> entries[1..][j] == entries[j + 1];
      AssignFromKeeps(next, entries[1..], pair, key);
    } else {
      assert entries[1..][i - 1] == entries[i];
      assert forall j :: i - 1 < j < |entries[1..]| ==> entries[1..][j] == entries[j + 1];
      AssignFromLastWins(next, entries[1..], pair, i - 1);
    }
  }
}
