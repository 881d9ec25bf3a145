/** The string dictionary of Serverlab/dictionary.c: two parallel arrays that grow together. */
module Dictionaries {
  import opened Options

  type Byte = b: int | 0 <= b < 256

  // The bytes of a C string, without the NUL that ends it.
  type Text = seq<Byte>

  // tolower in the C locale, as strcasecmp applies it.
  function Lower(c: Byte): Byte {
    if 65 <= c <= 90 then c + 32 else c
  }

  function Folded(key: Text): Text {
    seq(|key|, i requires 0 <= i < |key| => Lower(key[i]))
  }

  // What a key stands for: all its spellings when case does not matter.
  function Canon(key: Text, folding: bool): Text {
    if folding then Folded(key) else key
  }

  predicate SameKey(a: Text, b: Text, folding: bool) {
    Canon(a, folding) == Canon(b, folding)
  }

  // Two spellings agree when they are as long as each other and differ at most in the case of letters.
  lemma {:induction false} SameSpelling(a: Text, b: Text)
    ensures SameKey(a, b, true) <==>
            |a| == |b| && forall i :: 0 <= i < |a| ==>
              || a[i] == b[i]
              || (65 <= a[i] <= 90 && b[i] == a[i] + 32)
              || (65 <= b[i] <= 90 && a[i] == b[i] + 32)
    ensures SameKey(a, b, false) <==> a == b
  {
    if SameKey(a, b, true) {
      assert |Folded(a)| == |Folded(b)|;
      forall i | 0 <= i < |a| ensures Lower(a[i]) == Lower(b[i]) {
        assert Folded(a)[i] == Folded(b)[i];
      }
    }
  }

  // The value that a table of canonical keys has for a key as a caller spells it.
  function Found<V>(contents: map<Text, V>, key: Text, folding: bool): Option<V> {
    var k := Canon(key, folding);
    if k in contents then Some(contents[k]) else None
  }

  // After an assignment the value is found under every spelling of the key, and all other keys have theirs.
  lemma {:induction false} FoundAfter<V>(contents: map<Text, V>, key: Text, value: V, other: Text, folding: bool)
    ensures Found(contents[Canon(key, folding) := value], other, folding) ==
            if SameKey(other, key, folding) then Some(value) else Found(contents, other, folding)
  {
  }

  datatype Entry<V> = Entry(key: Text, value: V)

  function MapOf<V>(entries: seq<Entry<V>>, folding: bool): map<Text, V> {
    if entries == [] then map[]
    else
      var last := entries[|entries| - 1];
      MapOf(entries[..|entries| - 1], folding)[Canon(last.key, folding) := last.value]
  }

  // No two entries have the same key.
  ghost predicate Unique<V>(entries: seq<Entry<V>>, folding: bool) {
    forall i, j :: 0 <= i < j < |entries| ==> !SameKey(entries[i].key, entries[j].key, folding)
  }

  ghost predicate Absent<V>(entries: seq<Entry<V>>, key: Text, folding: bool) {
    forall i :: 0 <= i < |entries| ==> !SameKey(key, entries[i].key, folding)
  }

  lemma {:induction false} MapHasEntry<V>(entries: seq<Entry<V>>, folding: bool, i: nat)
    requires i < |entries| && Unique(entries, folding)
    ensures var k := Canon(entries[i].key, folding);
      k in MapOf(entries, folding) && MapOf(entries, folding)[k] == entries[i].value
  {
    if i < |entries| - 1 {
      MapHasEntry(entries[..|entries| - 1], folding, i);
    }
  }

  lemma {:induction false} MapHasNothingElse<V>(entries: seq<Entry<V>>, folding: bool, key: Text)
    requires Absent(entries, key, folding)
    ensures Canon(key, folding) !in MapOf(entries, folding)
  {
    if entries != [] {
      MapHasNothingElse(entries[..|entries| - 1], folding, key);
    }
  }

  lemma {:induction false} MapUpdate<V>(entries: seq<Entry<V>>, folding: bool, i: nat, value: V)
    requires i < |entries| && Unique(entries, folding)
    ensures var next := entries[i := Entry(entries[i].key, value)];
      MapOf(next, folding) == MapOf(entries, folding)[Canon(entries[i].key, folding) := value]
  {
    var n := |entries| - 1;
    var next := entries[i := Entry(entries[i].key, value)];
    if i < n {
      assert next[..n] == entries[..n][i := Entry(entries[i].key, value)];
      MapUpdate(entries[..n], folding, i, value);
      assert !SameKey(entries[i].key, entries[n].key, folding);
    } else {
      assert next[..n] == entries[..n];
    }
  }

  // A dictionary stores one entry for each key it maps.
  lemma {:induction false} OneEntryAKey<V>(entries: seq<Entry<V>>, folding: bool)
    requires Unique(entries, folding)
    ensures |MapOf(entries, folding)| == |entries|
  {
    if entries != [] {
      var n := |entries| - 1;
      OneEntryAKey(entries[..n], folding);
      assert Absent(entries[..n], entries[n].key, folding) by {
        forall i | 0 <= i < n ensures !SameKey(entries[n].key, entries[i].key, folding) {
          assert !SameKey(entries[i].key, entries[n].key, folding);
        }
      }
      MapHasNothingElse(entries[..n], folding, entries[n].key);
    }
  }

  class Dictionary<V(0)> {
    const folding: bool
    var count: nat
    var keys: array<Text>
    var values: array<V>

    ghost predicate Valid()
      reads this, keys, values
    {
      && count <= keys.Length == values.Length
      && Unique(Entries(), folding)
      && (var k: object, v: object := keys, values; k != v)
    }

    ghost function Entries(): (entries: seq<Entry<V>>)
      reads this, keys, values
      requires count <= keys.Length == values.Length
      ensures |entries| == count
    {
      seq(count, i requires 0 <= i < count && count <= keys.Length == values.Length reads this, keys, values
            => Entry(keys[i], values[i]))
    }

    ghost function Contents(): map<Text, V>
      reads this, keys, values
      requires Valid()
    {
      MapOf(Entries(), folding)
    }

    constructor (compareFolding: bool)
      ensures Valid() && fresh(keys) && fresh(values)
      ensures folding == compareFolding && Entries() == [] && Contents() == map[]
    {
      folding := compareFolding;
      count := 0;
      keys := new Text[0];
      values := new V[0];
    }

    // realloc of both arrays to twice one more than their length.
    method Grow()
      requires Valid()
      modifies this`keys, this`values
      ensures Valid() && fresh(keys) && fresh(values)
      ensures keys.Length == 2 * (old(keys.Length) + 1)
      ensures Entries() == old(Entries())
    {
      var alloc := 2 * (keys.Length + 1);
      var newKeys := new Text[alloc];
      var newValues := new V[alloc];
      forall i | 0 <= i < count { newKeys[i] := keys[i]; }
      forall i | 0 <= i < count { newValues[i] := values[i]; }
      ghost var was := Entries();
      keys, values := newKeys, newValues;
      assert Entries() == was;
    }

    method Replace(i: nat, value: V)
      requires Valid() && i < count
      modifies values
      ensures Valid() && Entries() == old(Entries())[i := Entry(old(Entries())[i].key, value)]
    {
      ghost var was := Entries();
      values[i] := value;
      assert Entries() == was[i := Entry(was[i].key, value)];
    }

    method Append(key: Text, value: V)
      requires Valid() && Absent(Entries(), key, folding)
      modifies this`count, this`keys, this`values, keys, values
      ensures Valid() && Entries() == old(Entries()) + [Entry(key, value)]
      ensures keys == old(keys) || fresh(keys)
      ensures values == old(values) || fresh(values)
    {
      ghost var was := Entries();
      if count == keys.Length {
        Grow();
      }
      keys[count] := key;
      values[count] := value;
      count := count + 1;
      assert Entries() == was + [Entry(key, value)];
    }

    // dictionary_set: an existing entry keeps the spelling of its key; a new one goes to the end.
    method Set(key: Text, value: V)
      requires Valid()
      modifies this`count, this`keys, this`values, keys, values
      ensures Valid()
      ensures keys == old(keys) || fresh(keys)
      ensures values == old(values) || fresh(values)
      ensures Contents() == old(Contents())[Canon(key, folding) := value]
      ensures forall other {:trigger Found(Contents(), other, folding)} ::
                Found(Contents(), other, folding) ==
                if SameKey(other, key, folding) then Some(value) else Found(old(Contents()), other, folding)
      ensures Canon(key, folding) in old(Contents()) ==>
                && |Entries()| == |old(Entries())|
                && forall i :: 0 <= i < |Entries()| ==> Entries()[i].key == old(Entries())[i].key
      ensures Canon(key, folding) !in old(Contents()) ==> Entries() == old(Entries()) + [Entry(key, value)]
    {
      ghost var was := Entries();
      var i := 0;
      while i < count
        invariant 0 <= i <= count && Absent(was[..i], key, folding)
      {
        assert was[i] == Entry(keys[i], values[i]);
        if SameKey(key, keys[i], folding) {
          MapHasEntry(was, folding, i);
          MapUpdate(was, folding, i, value);
          Replace(i, value);
          return;
        }
        assert was[..i + 1] == was[..i] + [was[i]];
        i := i + 1;
      }
      assert was[..i] == was;
      MapHasNothingElse(was, folding, key);
      Append(key, value);
      assert Entries()[..|was|] == was;
    }

    // dictionary_get
    method Get(key: Text) returns (found: Option<V>)
      requires Valid()
      ensures found == Found(Contents(), key, folding)
    {
      ghost var was := Entries();
      var i := 0;
      while i < count
        invariant 0 <= i <= count
        invariant Absent(was[..i], key, folding)
      {
        assert was[i] == Entry(keys[i], values[i]);
        if SameKey(key, keys[i], folding) {
          MapHasEntry(was, folding, i);
          return Some(values[i]);
        }
        assert was[..i + 1] == was[..i] + [was[i]];
        i := i + 1;
      }
      assert was[..i] == was;
      MapHasNothingElse(was, folding, key);
      return None;
    }
  }
}
