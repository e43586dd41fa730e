/** Directory records (`Entry`) and the two ways the client builds them:
    from a plain attribute array, and from one entry of a search result
    cursor.  A record is an object whose properties are set one at a time;
    it is never changed after it has been returned, so it is modelled as a
    value holding its properties in assignment order. */
module LdapEntry {
  import opened Php

  const DN_PROPERTY := "dn"
  const COUNT_KEY := StrKey("count")

  /** A record: property name -> value, in the order the properties were
      first assigned. */
  datatype Entry = Entry(props: seq<(string, Value)>) {

    /** `$entry->$name = $value`. */
    function Set(name: string, value: Value): Entry {
      Entry(Put(props, name, value))
    }

    /** The value of property `name`, if it was ever set. */
    function Get(name: string): Option<Value> {
      Lookup(props, name)
    }
  }

  /** One entry of a result cursor, as the transport hands it out: its DN
      and its attributes in cursor order, each with the raw value array of
      the transport (the values under keys 0..n-1 plus the key "count"). */
  datatype ResultEntry = ResultEntry(dn: string, attributes: seq<(string, seq<(Key, Value)>)>)

  /** `unset($values['count'])`. */
  function WithoutCount(raw: seq<(Key, Value)>): seq<(Key, Value)>
    decreases |raw|
  {
    if |raw| == 0 then []
    else (if raw[0].0 == COUNT_KEY then [] else [raw[0]]) + WithoutCount(raw[1..])
  }

  /** A PHP list: the values under keys 0..n-1, in order. */
  function Indexed(vs: seq<Value>): (r: seq<(Key, Value)>)
    ensures |r| == |vs|
  {
    seq(|vs|, i requires 0 <= i < |vs| => (IntKey(i), vs[i]))
  }

  /** The value stored for one cursor attribute:
      `array_values($values)` once the count is gone. */
  function AttributeValue(raw: seq<(Key, Value)>): Value {
    Arr(Indexed(Values(WithoutCount(raw))))
  }

  /** The property assignments `fromResultEntry` performs, in order: one per
      attribute visited, then `dn`. */
  function Assignments(e: ResultEntry): (r: seq<(string, Value)>)
    ensures |r| == |e.attributes| + 1
  {
    seq(|e.attributes|, i requires 0 <= i < |e.attributes| =>
      (e.attributes[i].0, AttributeValue(e.attributes[i].1)))
    + [(DN_PROPERTY, Str(e.dn))]
  }

  /** The record `fromResultEntry` builds from cursor entry `e`. */
  function RecordOf(e: ResultEntry): Entry {
    Entry(PutAll([], Assignments(e)))
  }

  /** The record `fromArray` builds from `data`. */
  function ArrayRecord(data: seq<(string, Value)>): Entry {
    Entry(PutAll([], data))
  }

  /** `Entry::fromArray`: a fresh record, then one property per array key,
      in array order.  The record holds exactly the input array. */
  method FromArray(data: seq<(string, Value)>) returns (entry: Entry)
    ensures entry == ArrayRecord(data)
    ensures Distinct(Keys(data)) ==> entry.props == data
  {
    entry := Entry([]);
    for i := 0 to |data|
      invariant entry == Entry(PutAll([], data[..i]))
    {
      var (key, value) := data[i];
      assert data[..i + 1][..i] == data[..i];
      entry := entry.Set(key, value);
    }
    assert data[..|data|] == data;
    if Distinct(Keys(data)) {
      PutAllRebuilds(data);
    }
  }

  /** `Entry::fromResultEntry`: a fresh record, one property per attribute
      in cursor order holding that attribute's values without the count and
      reindexed, then `dn` set from the cursor. */
  method FromResultEntry(e: ResultEntry) returns (entry: Entry)
    ensures entry == RecordOf(e)
    ensures entry.Get(DN_PROPERTY) == Some(Str(e.dn))
  {
    ghost var steps := Assignments(e);
    entry := Entry([]);
    var i := 0;
    while i < |e.attributes|
      invariant 0 <= i <= |e.attributes|
      invariant entry == Entry(PutAll([], steps[..i]))
    {
      var (attr, values) := e.attributes[i];
      values := WithoutCount(values);
      entry := entry.Set(attr, Arr(Indexed(Values(values))));
      assert steps[..i + 1][..i] == steps[..i];
      i := i + 1;
    }
    PutEffect(entry.props, DN_PROPERTY, Str(e.dn));
    entry := entry.Set(DN_PROPERTY, Str(e.dn));
    assert steps[..|steps| - 1] == steps[..i];
  }

  /** The raw array the transport returns for values `vs`: the values under
      keys 0..n-1, then "count" => n. */
  function TransportValues(vs: seq<Value>): seq<(Key, Value)> {
    Indexed(vs) + [(COUNT_KEY, Int(|vs|))]
  }

  lemma {:induction false} WithoutCountAppend(a: seq<(Key, Value)>, b: seq<(Key, Value)>)
    ensures WithoutCount(a + b) == WithoutCount(a) + WithoutCount(b)
    decreases |a|
  {
    if |a| == 0 {
      assert a + b == b;
    } else {
      assert (a + b)[0] == a[0];
      assert (a + b)[1..] == a[1..] + b;
      WithoutCountAppend(a[1..], b);
    }
  }

  lemma {:induction false} WithoutCountKeeps(raw: seq<(Key, Value)>)
    requires forall i :: 0 <= i < |raw| ==> raw[i].0 != COUNT_KEY
    ensures WithoutCount(raw) == raw
    decreases |raw|
  {
    if |raw| > 0 {
      WithoutCountKeeps(raw[1..]);
    }
  }

  /** Removing the count and reindexing gives back exactly the values the
      transport returned, in the same order, under keys 0..n-1. */
  lemma TransportValuesRoundTrip(vs: seq<Value>)
    ensures AttributeValue(TransportValues(vs)) == Arr(Indexed(vs))
  {
    WithoutCountAppend(Indexed(vs), [(COUNT_KEY, Int(|vs|))]);
    WithoutCountKeeps(Indexed(vs));
    assert WithoutCount([(COUNT_KEY, Int(|vs|))]) == [];
    assert Values(Indexed(vs)) == vs;
  }

  lemma {:induction false} LastValueOfAssignments(e: ResultEntry, n: nat, name: string)
    requires n <= |e.attributes|
    ensures LastValue(Assignments(e)[..n], name) ==
      match LastValue(e.attributes[..n], name)
      case None => None
      case Some(raw) => Some(AttributeValue(raw))
    decreases n
  {
    if n > 0 {
      assert Assignments(e)[..n][..n - 1] == Assignments(e)[..n - 1];
      assert e.attributes[..n][..n - 1] == e.attributes[..n - 1];
      LastValueOfAssignments(e, n - 1, name);
    }
  }

  /** Every attribute other than `dn` holds the values of the LAST cursor
      attribute with that name (a repeated name overwrites the earlier one),
      with the count removed; a name the cursor never visited is absent. */
  lemma RecordAttribute(e: ResultEntry, name: string)
    requires name != DN_PROPERTY
    ensures RecordOf(e).Get(name) ==
      match LastValue(e.attributes, name)
      case None => None
      case Some(raw) => Some(AttributeValue(raw))
  {
    var steps := Assignments(e);
    var n := |e.attributes|;
    PutAllLookup([], steps, name);
    assert steps[..n] == steps[..|steps| - 1];
    LastValueOfAssignments(e, n, name);
    assert e.attributes[..n] == e.attributes;
  }

  /** `dn` is assigned after every attribute, so the record's `dn` is the
      cursor DN even when the server returned an attribute named `dn`. */
  lemma RecordDn(e: ResultEntry)
    ensures RecordOf(e).Get(DN_PROPERTY) == Some(Str(e.dn))
  {
    PutAllLookup([], Assignments(e), DN_PROPERTY);
  }

  /** The record's properties are the visited attribute names, each once at
      its first visit, followed by `dn` unless an attribute named `dn` was
      already visited. */
  lemma RecordKeys(e: ResultEntry)
    ensures Keys(RecordOf(e).props) == AppendNew([], Keys(e.attributes) + [DN_PROPERTY])
    ensures Distinct(Keys(RecordOf(e).props))
  {
    PutAllKeys([], Assignments(e));
    PutAllDistinct([], Assignments(e));
    assert Keys(Assignments(e)) == Keys(e.attributes) + [DN_PROPERTY];
  }
}
