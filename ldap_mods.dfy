/** How `modify` turns the caller's attribute array into the replace set it
    sends: a leading `-` or `+` is stripped from the name; a `-` prefix, a
    null value or an empty array deletes the attribute (an empty value
    list); a scalar becomes a one-value list; an array becomes its values,
    reindexed, in order.  Later names that normalise alike overwrite earlier
    ones. */
module LdapMods {
  import opened Php

  /** The attribute name with one leading `-` or `+` removed. */
  function AttributeName(key: string): (name: string)
    ensures |key| > 0 && (key[0] == '-' || key[0] == '+') ==> name == key[1..]
    ensures !(|key| > 0 && (key[0] == '-' || key[0] == '+')) ==> name == key
  {
    if |key| > 0 && (key[0] == '-' || key[0] == '+') then key[1..] else key
  }

  predicate IsDeleteMarked(key: string) {
    |key| > 0 && key[0] == '-'
  }

  /** The value list sent for one input pair. */
  function ModValues(key: string, value: Value): (vs: seq<Value>)
    ensures |vs| == 0 <==> IsDeleteMarked(key) || value == Null || value == Arr([])
    ensures !IsDeleteMarked(key) && value.Arr? ==> vs == Values(value.items)
    ensures !IsDeleteMarked(key) && value != Null && !value.Arr? ==> vs == [value]
  {
    if value == Arr([]) || value == Null || IsDeleteMarked(key) then []
    else if !value.Arr? then [value]
    else Values(value.items)
  }

  /** The input pairs as the assignments `$mods[$name] = $values` they
      cause, in input order. */
  function ModAssignments(entry: seq<(string, Value)>): (r: seq<(string, seq<Value>)>)
    ensures |r| == |entry|
  {
    seq(|entry|, i requires 0 <= i < |entry| =>
      (AttributeName(entry[i].0), ModValues(entry[i].0, entry[i].1)))
  }

  /** The replace set `modify` sends for `entry`. */
  function ModSet(entry: seq<(string, Value)>): seq<(string, seq<Value>)> {
    PutAll([], ModAssignments(entry))
  }

  /** The `foreach` of `modify` that builds `$mods`. */
  method BuildMods(entry: seq<(string, Value)>) returns (mods: seq<(string, seq<Value>)>)
    ensures mods == ModSet(entry)
    ensures Distinct(Keys(mods))
  {
    ghost var steps := ModAssignments(entry);
    mods := [];
    for i := 0 to |entry|
      invariant mods == PutAll([], steps[..i])
    {
      var (attribute, values) := entry[i];
      var op := if |attribute| > 0 then attribute[..1] else "";
      assert (op == "-") == IsDeleteMarked(entry[i].0);
      assert (op == "-" || op == "+") == (|attribute| > 0 && (attribute[0] == '-' || attribute[0] == '+'));
      if op == "-" || op == "+" {
        attribute := attribute[1..];
      }
      assert attribute == AttributeName(entry[i].0);
      assert steps[..i + 1] == steps[..i] + [(attribute, ModValues(entry[i].0, values))];
      assert steps[..i + 1][..i] == steps[..i];
      if values == Arr([]) || values == Null || op == "-" {
        mods := Put(mods, attribute, []);
        continue;
      }
      if !values.Arr? {
        values := Arr([(IntKey(0), values)]);
        assert Values(values.items) == [entry[i].1];
      }
      mods := Put(mods, attribute, Values(values.items));
    }
    assert steps[..|entry|] == steps;
    PutAllDistinct([], steps);
  }

  /** The last input pair whose name normalises to `name`. */
  function LastPair(entry: seq<(string, Value)>, name: string): Option<(string, Value)>
    decreases |entry|
  {
    if |entry| == 0 then None
    else if AttributeName(entry[|entry| - 1].0) == name then Some(entry[|entry| - 1])
    else LastPair(entry[..|entry| - 1], name)
  }

  lemma {:induction false} LastAssignment(entry: seq<(string, Value)>, name: string)
    ensures LastValue(ModAssignments(entry), name) ==
      match LastPair(entry, name)
      case None => None
      case Some(p) => Some(ModValues(p.0, p.1))
    decreases |entry|
  {
    if |entry| > 0 {
      var n := |entry| - 1;
      assert ModAssignments(entry)[..n] == ModAssignments(entry[..n]);
      LastAssignment(entry[..n], name);
    }
  }

  /** Each attribute of the replace set comes from the LAST input pair
      naming it (after the prefix is stripped): deleted (no values) when that
      pair is `-`-marked, null or an empty array, else its values; a name no
      pair uses is not in the set at all.  No name appears twice. */
  lemma ModSetAttribute(entry: seq<(string, Value)>, name: string)
    ensures Lookup(ModSet(entry), name) ==
      match LastPair(entry, name)
      case None => None
      case Some(p) => Some(ModValues(p.0, p.1))
    ensures Distinct(Keys(ModSet(entry)))
  {
    PutAllLookup([], ModAssignments(entry), name);
    LastAssignment(entry, name);
    PutAllDistinct([], ModAssignments(entry));
  }

  /** Stripping: `-cn` and `+cn` both address `cn`, and `-cn` deletes it. */
  lemma PrefixedNamesShareAttribute(name: string, value: Value)
    ensures Lookup(ModSet([("-" + name, value)]), name) == Some([])
    ensures value != Null && value != Arr([]) && !value.Arr? ==>
      Lookup(ModSet([("+" + name, value)]), name) == Some([value])
  {
    ModSetAttribute([("-" + name, value)], name);
    ModSetAttribute([("+" + name, value)], name);
    assert ("-" + name)[1..] == name;
    assert ("+" + name)[1..] == name;
  }
}
