/**
  The dictionary cache helper: a cache region that maps a namespaced key
  (a fixed prefix followed by the dictionary type) to the ordered entry list
  of that dictionary, and the translation of a value to its label (and of a
  label to its value), for one item or for a separator-joined list of items.
 */
module DictUtils {
  import opened Wrappers
  import opened StringUtils

  /** One dictionary entry (`SysDictData`): the code stored and the text shown for it. */
  datatype SysDictData = SysDictData(dictType: string, dictValue: string, dictLabel: string)

  /** The default separator of multi-item strings. */
  const SEPARATOR: char := ','

  /** The key prefix of dictionaries. */
  const SYS_DICT_KEY: string := "sys_dict:"

  /** `getCacheKey`: the dictionary prefix followed by the dictionary type. */
  function CacheKey(configKey: string): (key: string)
    ensures SYS_DICT_KEY <= key
    ensures key[|SYS_DICT_KEY|..] == configKey
  {
    SYS_DICT_KEY + configKey
  }

  /** Distinct dictionary types never share a cache key. */
  lemma CacheKeyInjective(a: string, b: string)
    requires a != b
    ensures CacheKey(a) != CacheKey(b)
  {
  }

  /** What the region holds for a dictionary type; `None` plays Java's null. */
  function Lookup(region: map<string, seq<SysDictData>>, dictType: string): (r: Option<seq<SysDictData>>)
    ensures r.None? <==> CacheKey(dictType) !in region
    ensures r.Some? ==> r.value == region[CacheKey(dictType)]
  {
    if CacheKey(dictType) in region then Some(region[CacheKey(dictType)]) else None
  }

  /** After a put, the same type reads back the stored list and every other type reads as before. */
  lemma LookupAfterPut(region: map<string, seq<SysDictData>>, dictType: string, datas: seq<SysDictData>, other: string)
    ensures Lookup(region[CacheKey(dictType) := datas], dictType) == Some(datas)
    ensures other != dictType ==> Lookup(region[CacheKey(dictType) := datas], other) == Lookup(region, other)
  {
    if other != dictType {
      CacheKeyInjective(dictType, other);
    }
  }

  /** An emptied region holds nothing for any type. */
  lemma LookupAfterClear(dictType: string)
    ensures Lookup(map[], dictType) == None
  {
  }

  /** Which field of an entry a translation matches on. */
  datatype Field = DictValue | DictLabel

  function FieldOf(d: SysDictData, f: Field): string
  {
    match f
    case DictValue => d.dictValue
    case DictLabel => d.dictLabel
  }

  function Opposite(f: Field): Field
  {
    match f
    case DictValue => DictLabel
    case DictLabel => DictValue
  }

  /** The index of the first entry at or after `lo` whose `field` field is `key`. */
  function FirstMatchFrom(datas: seq<SysDictData>, key: string, field: Field, lo: nat): (r: Option<nat>)
    requires lo <= |datas|
    ensures r.Some? ==> lo <= r.value < |datas| && FieldOf(datas[r.value], field) == key
    ensures r.Some? ==> forall j :: lo <= j < r.value ==> FieldOf(datas[j], field) != key
    ensures r.None? ==> forall j :: lo <= j < |datas| ==> FieldOf(datas[j], field) != key
    decreases |datas| - lo
  {
    if lo == |datas| then None
    else if FieldOf(datas[lo], field) == key then Some(lo)
    else FirstMatchFrom(datas, key, field, lo + 1)
  }

  /** The opposite fields of the entries whose `field` field is among `pieces`, in list order. */
  function MatchedOutputs(datas: seq<SysDictData>, pieces: seq<string>, field: Field): seq<string>
    decreases |datas|
  {
    if datas == [] then []
    else
      var last := datas[|datas| - 1];
      MatchedOutputs(datas[..|datas| - 1], pieces, field)
        + (if FieldOf(last, field) in pieces then [FieldOf(last, Opposite(field))] else [])
  }

  /** The positions of the entries whose `field` field is among `pieces`. */
  function MatchIndices(datas: seq<SysDictData>, pieces: seq<string>, field: Field): (idx: seq<nat>)
    ensures forall k :: 0 <= k < |idx| ==> idx[k] < |datas| && FieldOf(datas[idx[k]], field) in pieces
    ensures forall k, l :: 0 <= k < l < |idx| ==> idx[k] < idx[l]
    ensures forall i :: 0 <= i < |datas| && FieldOf(datas[i], field) in pieces ==> i in idx
    decreases |datas|
  {
    if datas == [] then []
    else
      var n := |datas| - 1;
      MatchIndices(datas[..n], pieces, field) + (if FieldOf(datas[n], field) in pieces then [n] else [])
  }

  /** The multi-item outputs are the matched entries taken in dictionary-list order,
      each entry at most once: one output per matching position, positions strictly
      increasing, every matching position present. */
  lemma {:induction false} MatchedOutputsInListOrder(datas: seq<SysDictData>, pieces: seq<string>, field: Field)
    ensures var idx := MatchIndices(datas, pieces, field);
      |MatchedOutputs(datas, pieces, field)| == |idx|
      && forall k :: 0 <= k < |idx| ==> MatchedOutputs(datas, pieces, field)[k] == FieldOf(datas[idx[k]], Opposite(field))
    decreases |datas|
  {
    if datas != [] {
      var n := |datas| - 1;
      MatchedOutputsInListOrder(datas[..n], pieces, field);
    }
  }

  /** Extending the scanned prefix by one entry adds that entry's output when it matches. */
  lemma MatchedOutputsStep(datas: seq<SysDictData>, i: nat, pieces: seq<string>, field: Field)
    requires i < |datas|
    ensures FieldOf(datas[i], field) in pieces ==>
      MatchedOutputs(datas[..i + 1], pieces, field) == MatchedOutputs(datas[..i], pieces, field) + [FieldOf(datas[i], Opposite(field))]
    ensures FieldOf(datas[i], field) !in pieces ==>
      MatchedOutputs(datas[..i + 1], pieces, field) == MatchedOutputs(datas[..i], pieces, field)
  {
    assert datas[..i + 1][..i] == datas[..i];
    assert MatchedOutputs(datas[..i], pieces, field) + [] == MatchedOutputs(datas[..i], pieces, field);
  }

  /** Duplicated or reordered input pieces change nothing: only which strings occur matters. */
  lemma {:induction false} MatchedOutputsIgnoreDuplicates(datas: seq<SysDictData>, p1: seq<string>, p2: seq<string>, field: Field)
    requires forall x :: x in p1 <==> x in p2
    ensures MatchedOutputs(datas, p1, field) == MatchedOutputs(datas, p2, field)
    decreases |datas|
  {
    if datas != [] {
      MatchedOutputsIgnoreDuplicates(datas[..|datas| - 1], p1, p2, field);
    }
  }

  /** Each output followed by the separator: what the string builder holds. */
  function Terminated(outs: seq<string>, sep: char): string
  {
    if outs == [] then "" else outs[0] + [sep] + Terminated(outs[1..], sep)
  }

  lemma {:induction false} TerminatedAppend(outs: seq<string>, out: string, sep: char)
    ensures Terminated(outs + [out], sep) == Terminated(outs, sep) + out + [sep]
    decreases |outs|
  {
    if outs == [] {
      assert [out][1..] == [];
    } else {
      assert (outs + [out])[1..] == outs[1..] + [out];
      TerminatedAppend(outs[1..], out, sep);
    }
  }

  lemma {:induction false} TerminatedIsJoinThenSeparator(outs: seq<string>, sep: char)
    requires outs != []
    ensures Terminated(outs, sep) == Join(outs, sep) + [sep]
    decreases |outs|
  {
    if |outs| > 1 {
      TerminatedIsJoinThenSeparator(outs[1..], sep);
    }
  }

  /** What `getDictLabel` (by `DictValue`) and `getDictValue` (by `DictLabel`)
      return for the entry list `datas`. */
  function Translate(datas: seq<SysDictData>, input: string, sep: char, field: Field): (r: string)
    ensures sep in input && |datas| > 0 ==> r == [] || r[|r| - 1] != sep
    ensures !(sep in input && |datas| > 0) ==>
      (r == "" && forall j :: 0 <= j < |datas| ==> FieldOf(datas[j], field) != input)
      || exists i :: 0 <= i < |datas| && FieldOf(datas[i], field) == input && r == FieldOf(datas[i], Opposite(field))
  {
    if sep in input && |datas| > 0 then
      StripEnd(Terminated(MatchedOutputs(datas, Split(input, sep), field), sep), sep)
    else
      match FirstMatchFrom(datas, input, field, 0)
      case Some(i) => FieldOf(datas[i], Opposite(field))
      case None => ""
  }

  /** A single item translates to the opposite field of the first entry that matches it. */
  lemma SingleItemFirstMatch(datas: seq<SysDictData>, input: string, sep: char, field: Field, i: nat)
    requires sep !in input
    requires i < |datas| && FieldOf(datas[i], field) == input
    requires forall j :: 0 <= j < i ==> FieldOf(datas[j], field) != input
    ensures Translate(datas, input, sep, field) == FieldOf(datas[i], Opposite(field))
  {
    var r := FirstMatchFrom(datas, input, field, 0);
    assert r.Some? && r.value == i;
  }

  /** A single item that matches no entry translates to the empty string, not to null. */
  lemma SingleItemMiss(datas: seq<SysDictData>, input: string, sep: char, field: Field)
    requires sep !in input || datas == []
    requires forall j :: 0 <= j < |datas| ==> FieldOf(datas[j], field) != input
    ensures Translate(datas, input, sep, field) == ""
  {
  }

  /** A multi-item string translates to the matched outputs joined by the separator,
      with the trailing separators stripped (so the result never ends in the separator). */
  lemma MultiItemJoin(datas: seq<SysDictData>, input: string, sep: char, field: Field)
    requires sep in input && datas != []
    ensures Translate(datas, input, sep, field) == StripEnd(Join(MatchedOutputs(datas, Split(input, sep), field), sep), sep)
  {
    var outs := MatchedOutputs(datas, Split(input, sep), field);
    if outs != [] {
      TerminatedIsJoinThenSeparator(outs, sep);
      StripEndAppended(Join(outs, sep), sep);
    }
  }

  /** When the last output is non-empty and does not end in the separator, stripping
      leaves the join exactly as it is. */
  lemma StripEndKeepsCleanJoin(outs: seq<string>, sep: char)
    requires outs != []
    requires outs[|outs| - 1] != [] && outs[|outs| - 1][|outs[|outs| - 1]| - 1] != sep
    ensures StripEnd(Join(outs, sep), sep) == Join(outs, sep)
  {
    JoinEndsWithLast(outs, sep);
  }

  /** The multi-item result is exactly the join of the outputs when the last output is
      non-empty and does not end in the separator. */
  lemma MultiItemExact(datas: seq<SysDictData>, input: string, sep: char, field: Field)
    requires sep in input && datas != []
    requires var outs := MatchedOutputs(datas, Split(input, sep), field);
      outs != [] && outs[|outs| - 1] != [] && outs[|outs| - 1][|outs[|outs| - 1]| - 1] != sep
    ensures Translate(datas, input, sep, field) == Join(MatchedOutputs(datas, Split(input, sep), field), sep)
  {
    MultiItemJoin(datas, input, sep, field);
    StripEndKeepsCleanJoin(MatchedOutputs(datas, Split(input, sep), field), sep);
  }

  lemma {:induction false} JoinEndsWithLast(outs: seq<string>, sep: char)
    requires outs != []
    ensures |Join(outs, sep)| >= |outs[|outs| - 1]|
    ensures Join(outs, sep)[|Join(outs, sep)| - |outs[|outs| - 1]|..] == outs[|outs| - 1]
    decreases |outs|
  {
    if |outs| > 1 {
      JoinEndsWithLast(outs[1..], sep);
    }
  }

  /** An entry with its value and label exchanged. */
  function Swapped(d: SysDictData): SysDictData
  {
    SysDictData(d.dictType, d.dictLabel, d.dictValue)
  }

  function SwapAll(datas: seq<SysDictData>): (r: seq<SysDictData>)
    ensures |r| == |datas|
    ensures forall i :: 0 <= i < |datas| ==> r[i] == Swapped(datas[i])
  {
    seq(|datas|, i requires 0 <= i < |datas| => Swapped(datas[i]))
  }

  lemma {:induction false} MatchedOutputsSwapped(datas: seq<SysDictData>, pieces: seq<string>)
    ensures MatchedOutputs(datas, pieces, DictLabel) == MatchedOutputs(SwapAll(datas), pieces, DictValue)
    decreases |datas|
  {
    if datas != [] {
      var n := |datas| - 1;
      assert SwapAll(datas)[..n] == SwapAll(datas[..n]);
      MatchedOutputsSwapped(datas[..n], pieces);
    }
  }

  /** `getDictValue` is `getDictLabel` with value and label exchanged, in both branches. */
  lemma ValueLookupIsSwappedLabelLookup(datas: seq<SysDictData>, input: string, sep: char)
    ensures Translate(datas, input, sep, DictLabel) == Translate(SwapAll(datas), input, sep, DictValue)
  {
    if sep in input && |datas| > 0 {
      MatchedOutputsSwapped(datas, Split(input, sep));
    } else {
      var a := FirstMatchFrom(datas, input, DictLabel, 0);
      var b := FirstMatchFrom(SwapAll(datas), input, DictValue, 0);
      if a.Some? {
        assert b.Some? && b.value == a.value;
      } else {
        assert b.None?;
      }
    }
  }

  /** No two entries of a dictionary share a value. */
  ghost predicate UniqueValues(datas: seq<SysDictData>)
  {
    forall i, j :: 0 <= i < j < |datas| ==> datas[i].dictValue != datas[j].dictValue
  }

  /** For a value that some entry carries, translating to the label, back to a value and
      to a label again returns the same label, when values are unique and no value or
      label contains the separator. */
  lemma SingleItemRoundTrip(datas: seq<SysDictData>, v: string, sep: char, i: nat)
    requires UniqueValues(datas)
    requires forall j :: 0 <= j < |datas| ==> sep !in datas[j].dictValue && sep !in datas[j].dictLabel
    requires i < |datas| && datas[i].dictValue == v
    ensures var shown := Translate(datas, v, sep, DictValue);
      Translate(datas, Translate(datas, shown, sep, DictLabel), sep, DictValue) == shown
  {
    SingleItemFirstMatch(datas, v, sep, DictValue, i);
    var shown := datas[i].dictLabel;
    var j := FirstMatchFrom(datas, shown, DictLabel, 0);
    assert j.Some?;
    var v2 := datas[j.value].dictValue;
    SingleItemFirstMatch(datas, shown, sep, DictLabel, j.value);
    SingleItemFirstMatch(datas, v2, sep, DictValue, j.value);
  }

  /** The dictionary region of the shared cache: cache keys to entry lists. */
  class DictCache {
    var region: map<string, seq<SysDictData>>

    constructor ()
      ensures region == map[]
    {
      region := map[];
    }

    /** `setDictCache`: store `datas` under the key of `dictType`, replacing what was there. */
    method SetDictCache(key: string, dictDatas: seq<SysDictData>)
      modifies this
      ensures region == old(region)[CacheKey(key) := dictDatas]
      ensures Lookup(region, key) == Some(dictDatas)
      ensures forall other :: other != key ==> Lookup(region, other) == Lookup(old(region), other)
    {
      region := region[CacheKey(key) := dictDatas];
      forall other | other != key
        ensures Lookup(region, other) == Lookup(old(region), other)
      {
        LookupAfterPut(old(region), key, dictDatas, other);
      }
    }

    /** `getDictCache`: the stored list, or null when nothing is stored for `key`. */
    method GetDictCache(key: string) returns (datas: Option<seq<SysDictData>>)
      ensures datas.None? <==> CacheKey(key) !in region
      ensures datas.Some? ==> datas.value == region[CacheKey(key)]
    {
      if CacheKey(key) in region {
        datas := Some(region[CacheKey(key)]);
      } else {
        datas := None;
      }
    }

    /** `clearDictCache`: evict every entry of the region. */
    method ClearDictCache()
      modifies this
      ensures region == map[]
      ensures forall key :: Lookup(region, key) == None
    {
      region := map[];
    }

    /** `getDictLabel(dictType, dictValue)`: the three-argument form with `SEPARATOR`. */
    method GetDictLabel(dictType: string, dictValue: string) returns (dictLabel: string)
      requires CacheKey(dictType) in region
      ensures dictLabel == Translate(region[CacheKey(dictType)], dictValue, SEPARATOR, DictValue)
    {
      dictLabel := GetDictLabelWith(dictType, dictValue, SEPARATOR);
    }

    /** `getDictValue(dictType, dictLabel)`: the three-argument form with `SEPARATOR`. */
    method GetDictValue(dictType: string, dictLabel: string) returns (value: string)
      requires CacheKey(dictType) in region
      ensures value == Translate(region[CacheKey(dictType)], dictLabel, SEPARATOR, DictLabel)
    {
      value := GetDictValueWith(dictType, dictLabel, SEPARATOR);
    }

    /** `getDictLabel(dictType, dictValue, separator)`. */
    method GetDictLabelWith(dictType: string, dictValue: string, separator: char) returns (dictLabel: string)
      requires CacheKey(dictType) in region
      requires LiteralSeparator(separator)
      ensures dictLabel == Translate(region[CacheKey(dictType)], dictValue, separator, DictValue)
    {
      var cached := GetDictCache(dictType);
      dictLabel := TranslateEntries(cached.value, dictValue, separator, DictValue);
    }

    /** `getDictValue(dictType, dictLabel, separator)`. */
    method GetDictValueWith(dictType: string, dictLabel: string, separator: char) returns (value: string)
      requires CacheKey(dictType) in region
      requires LiteralSeparator(separator)
      ensures value == Translate(region[CacheKey(dictType)], dictLabel, separator, DictLabel)
    {
      var cached := GetDictCache(dictType);
      value := TranslateEntries(cached.value, dictLabel, separator, DictLabel);
    }
  }

  /** The loops shared by `getDictLabel` and `getDictValue`, over the cached list
      `datas`, matching `input` against the `field` of each entry. */
  method TranslateEntries(datas: seq<SysDictData>, input: string, separator: char, field: Field) returns (output: string)
    ensures output == Translate(datas, input, separator, field)
  {
    ContainsAnySingle(separator, input);
    if ContainsAny([separator], input) && |datas| > 0 {
      var propertyString := AppendMatches(datas, input, separator, field);
      output := StripEnd(propertyString, separator);
    } else {
      var i := 0;
      while i < |datas|
        invariant 0 <= i <= |datas|
        invariant forall k :: 0 <= k < i ==> FieldOf(datas[k], field) != input
      {
        if input == FieldOf(datas[i], field) {
          return FieldOf(datas[i], Opposite(field));
        }
        i := i + 1;
      }
      output := StripEnd("", separator);
    }
  }

  /** The multi-item branch: for each entry in list order, scan the split input and
      append the entry's opposite field and a separator at the first piece equal to it. */
  method AppendMatches(datas: seq<SysDictData>, input: string, separator: char, field: Field) returns (propertyString: string)
    ensures propertyString == Terminated(MatchedOutputs(datas, Split(input, separator), field), separator)
  {
    propertyString := "";
    ghost var split := Split(input, separator);
    var i := 0;
    while i < |datas|
      invariant 0 <= i <= |datas|
      invariant propertyString == Terminated(MatchedOutputs(datas[..i], split, field), separator)
    {
      var dict := datas[i];
      var pieces := Split(input, separator);
      MatchedOutputsStep(datas, i, pieces, field);
      var j := 0;
      while j < |pieces|
        invariant 0 <= j <= |pieces|
        invariant forall k :: 0 <= k < j ==> pieces[k] != FieldOf(dict, field)
        invariant propertyString == Terminated(MatchedOutputs(datas[..i], pieces, field), separator)
      {
        if pieces[j] == FieldOf(dict, field) {
          TerminatedAppend(MatchedOutputs(datas[..i], pieces, field), FieldOf(dict, Opposite(field)), separator);
          propertyString := propertyString + FieldOf(dict, Opposite(field)) + [separator];
          break;
        }
        j := j + 1;
      }
      i := i + 1;
    }
    assert datas[..i] == datas;
  }

  /** Java's `split` reads its argument as a regular expression; these separators are
      the ones it takes literally. A Java string is UTF-16, so the separator must also
      be one code unit: a character above U+FFFF is a surrogate pair there. */
  predicate LiteralSeparator(c: char)
  {
    c !in ".$|()[{^?*+\\" && c as int < 0x1_0000
  }
}
