/** The bencode encoder nested in `create_test_torrent_file`: a recursive
    serialiser over integers, byte strings, dictionaries and lists, following
    the "bencoding" section of BEP 3 (The BitTorrent Protocol Specification). */
module Bencode {
  import opened Bytes

  /** The four kinds of value the encoder accepts. A dictionary is a Python
      `dict` with byte-string keys: its entries in insertion order. Only the
      values satisfying `WellFormed` (no dictionary repeats a key) stand for
      Python values; a repeated key has no `dict` counterpart. */
  datatype BValue =
    | BInt(n: int)
    | BStr(s: Bytes)
    | BList(items: seq<BValue>)
    | BDict(entries: seq<Entry>)

  datatype Entry = Entry(key: Bytes, value: BValue)

  const TagInt: byte := 105   // 'i'
  const TagList: byte := 108  // 'l'
  const TagDict: byte := 100  // 'd'
  const TagEnd: byte := 101   // 'e'
  const Colon: byte := 58     // ':'

  // ---------------------------------------------------------------------
  // Python's ordering of `bytes`: lexicographic on octets, a proper prefix
  // sorts first.

  predicate KeyLess(a: Bytes, b: Bytes)
    decreases |a|
  {
    if a == [] then b != []
    else if b == [] then false
    else a[0] < b[0] || (a[0] == b[0] && KeyLess(a[1..], b[1..]))
  }

  lemma {:induction false} KeyLessIrreflexive(a: Bytes)
    ensures !KeyLess(a, a)
    decreases |a|
  {
    if a != [] {
      KeyLessIrreflexive(a[1..]);
    }
  }

  lemma {:induction false} KeyLessTransitive(a: Bytes, b: Bytes, c: Bytes)
    requires KeyLess(a, b) && KeyLess(b, c)
    ensures KeyLess(a, c)
    decreases |a|
  {
    if a != [] && a[0] == b[0] && b[0] == c[0] {
      KeyLessTransitive(a[1..], b[1..], c[1..]);
    }
  }

  lemma {:induction false} KeyLessTotal(a: Bytes, b: Bytes)
    requires a != b
    ensures KeyLess(a, b) || KeyLess(b, a)
    decreases |a|
  {
    if a != [] && b != [] && a[0] == b[0] {
      assert a == [a[0]] + a[1..] && b == [b[0]] + b[1..];
      KeyLessTotal(a[1..], b[1..]);
    }
  }

  /** "Not less than" is transitive, because the order is total. */
  lemma NotLessTransitive(a: Bytes, b: Bytes, c: Bytes)
    requires !KeyLess(a, b) && !KeyLess(b, c)
    ensures !KeyLess(a, c)
  {
    if KeyLess(a, c) {
      if b == c {
      } else if b == a {
      } else {
        KeyLessTotal(b, c);
        KeyLessTransitive(a, c, b);
      }
    }
  }

  // ---------------------------------------------------------------------
  // `sorted(obj.keys())`

  /** Ascending in Python's `bytes` order (equal neighbours allowed). */
  predicate Sorted(ks: seq<Bytes>) {
    forall i, j :: 0 <= i < j < |ks| ==> !KeyLess(ks[j], ks[i])
  }

  function Insert(k: Bytes, ks: seq<Bytes>): (r: seq<Bytes>)
    ensures multiset(r) == multiset(ks) + multiset{k}
  {
    if ks == [] || !KeyLess(ks[0], k) then [k] + ks
    else
      assert ks == [ks[0]] + ks[1..];
      [ks[0]] + Insert(k, ks[1..])
  }

  /** Inserting into a sorted list keeps it sorted. */
  lemma {:induction false} InsertSorted(k: Bytes, ks: seq<Bytes>)
    requires Sorted(ks)
    ensures Sorted(Insert(k, ks))
  {
    if ks == [] || !KeyLess(ks[0], k) {
      forall j | 0 <= j < |ks| ensures !KeyLess(ks[j], k) {
        if j > 0 { NotLessTransitive(ks[j], ks[0], k); }
      }
    } else {
      var rest := Insert(k, ks[1..]);
      InsertSorted(k, ks[1..]);
      assert ks == [ks[0]] + ks[1..];
      forall x | x in rest ensures !KeyLess(x, ks[0]) {
        assert x in multiset(rest);
        if x == k && KeyLess(k, ks[0]) {
          KeyLessTransitive(k, ks[0], k);
          KeyLessIrreflexive(k);
        }
      }
      var r := [ks[0]] + rest;
      forall i, j | 0 <= i < j < |r| ensures !KeyLess(r[j], r[i]) {
        if i == 0 { assert r[j] in rest; }
        else { assert r[i] == rest[i - 1] && r[j] == rest[j - 1]; }
      }
    }
  }

  /** The model of Python's `sorted` on a list of byte strings. */
  function SortKeys(ks: seq<Bytes>): (r: seq<Bytes>)
    ensures Sorted(r)
    ensures multiset(r) == multiset(ks)
  {
    if ks == [] then []
    else
      assert ks == [ks[0]] + ks[1..];
      InsertSorted(ks[0], SortKeys(ks[1..]));
      Insert(ks[0], SortKeys(ks[1..]))
  }

  /** A sorted arrangement of a multiset of keys is unique. */
  lemma {:induction false} SortedUnique(a: seq<Bytes>, b: seq<Bytes>)
    requires Sorted(a) && Sorted(b) && multiset(a) == multiset(b)
    ensures a == b
    decreases |a|
  {
    if a == [] {
      assert |multiset(b)| == 0;
    } else {
      assert |b| == |multiset(b)| == |a|;
      SortedSameHead(a, b);
      assert a == [a[0]] + a[1..] && b == [b[0]] + b[1..];
      assert multiset(a[1..]) == multiset(a) - multiset{a[0]};
      assert multiset(b[1..]) == multiset(b) - multiset{b[0]};
      SortedTail(a);
      SortedTail(b);
      SortedUnique(a[1..], b[1..]);
    }
  }

  lemma SortedTail(a: seq<Bytes>)
    requires Sorted(a) && a != []
    ensures Sorted(a[1..])
  {
    forall i, j | 0 <= i < j < |a| - 1 ensures !KeyLess(a[1..][j], a[1..][i]) {
      assert a[1..][j] == a[j + 1] && a[1..][i] == a[i + 1];
    }
  }

  /** Two sorted arrangements of one multiset start with the same key. */
  lemma SortedSameHead(a: seq<Bytes>, b: seq<Bytes>)
    requires Sorted(a) && Sorted(b) && multiset(a) == multiset(b)
    requires a != [] && b != []
    ensures a[0] == b[0]
  {
    assert a[0] in multiset(b) && b[0] in multiset(a);
    var j :| 0 <= j < |b| && b[j] == a[0];
    var i :| 0 <= i < |a| && a[i] == b[0];
    assert !KeyLess(a[0], b[0]) by {
      if j > 0 { assert !KeyLess(b[j], b[0]); } else { KeyLessIrreflexive(a[0]); }
    }
    assert !KeyLess(b[0], a[0]) by {
      if i > 0 { assert !KeyLess(a[i], a[0]); } else { KeyLessIrreflexive(b[0]); }
    }
    if a[0] != b[0] {
      KeyLessTotal(a[0], b[0]);
    }
  }

  // ---------------------------------------------------------------------
  // Dictionary entries

  function Keys(es: seq<Entry>): (ks: seq<Bytes>)
    ensures |ks| == |es|
    ensures forall i :: 0 <= i < |es| ==> ks[i] == es[i].key
  {
    if es == [] then [] else [es[0].key] + Keys(es[1..])
  }

  predicate DistinctKeys(es: seq<Entry>) {
    forall i, j :: 0 <= i < j < |es| ==> es[i].key != es[j].key
  }

  /** Where `obj[key]` finds its value. */
  function Lookup(es: seq<Entry>, k: Bytes): (j: nat)
    requires k in Keys(es)
    ensures j < |es| && es[j].key == k
    ensures forall i :: 0 <= i < j ==> es[i].key != k
  {
    if es[0].key == k then 0
    else
      assert Keys(es) == [es[0].key] + Keys(es[1..]);
      1 + Lookup(es[1..], k)
  }

  /** With distinct keys, `obj[es[i].key]` finds entry `i`. */
  lemma LookupAt(es: seq<Entry>, i: nat)
    requires DistinctKeys(es) && i < |es|
    ensures es[i].key in Keys(es) && Lookup(es, es[i].key) == i
  {
    assert Keys(es)[i] == es[i].key;
    var j := Lookup(es, es[i].key);
    if j < i { } else if i < j { }
  }

  /** Every dictionary in `v`, at any depth, has distinct keys, as a Python
      `dict` always does. */
  predicate WellFormed(v: BValue) {
    match v
    case BInt(_) => true
    case BStr(_) => true
    case BList(items) => forall i :: 0 <= i < |items| ==> WellFormed(items[i])
    case BDict(es) => DistinctKeys(es) && forall i :: 0 <= i < |es| ==> WellFormed(es[i].value)
  }

  /** The keys of a dictionary, in the order the encoder writes them. */
  function EncodedKeyOrder(es: seq<Entry>): (ks: seq<Bytes>)
    ensures forall k :: k in ks <==> k in Keys(es)
  {
    var ks := SortKeys(Keys(es));
    assert forall k :: k in ks <==> k in multiset(Keys(es));
    ks
  }

  // ---------------------------------------------------------------------
  // The encoder

  /** `bencode(obj)`. */
  function Encode(v: BValue): Bytes
    decreases v
  {
    match v
    case BInt(n) => [TagInt] + IntText(n) + [TagEnd]
    case BStr(s) => EncodeBytes(s)
    case BList(items) => [TagList] + EncodeItems(items) + [TagEnd]
    case BDict(es) => [TagDict] + EncodeEntries(v, EncodedKeyOrder(es)) + [TagEnd]
  }

  /** The byte-string case, which also writes every dictionary key. */
  function EncodeBytes(s: Bytes): Bytes {
    NatText(|s|) + [Colon] + s
  }

  /** The list loop: each item's encoding, in the list's own order. */
  function EncodeItems(items: seq<BValue>): Bytes
    decreases items
  {
    if items == [] then [] else Encode(items[0]) + EncodeItems(items[1..])
  }

  /** The dictionary loop: for each key in `keys`, in that order, the key and
      its value as `EncodeEntry` writes them. */
  function EncodeEntries(parent: BValue, keys: seq<Bytes>): Bytes
    requires parent.BDict?
    requires forall k :: k in keys ==> k in Keys(parent.entries)
    decreases parent, |keys|
  {
    if keys == [] then []
    else
      assert keys[0] in keys;
      EncodeEntry(parent, keys[0]) + EncodeEntries(parent, keys[1..])
  }

  /** One step of the dictionary loop: `bencode(key) + bencode(obj[key])`. */
  function EncodeEntry(parent: BValue, k: Bytes): Bytes
    requires parent.BDict? && k in Keys(parent.entries)
    decreases parent, 0
  {
    EncodeBytes(k) + Encode(parent.entries[Lookup(parent.entries, k)].value)
  }

  /** In a dictionary without repeated keys, each key is written next to
      its own value. */
  lemma EntryEncoding(es: seq<Entry>, i: nat)
    requires DistinctKeys(es) && i < |es|
    ensures es[i].key in Keys(es)
    ensures EncodeEntry(BDict(es), es[i].key) == EncodeBytes(es[i].key) + Encode(es[i].value)
  {
    LookupAt(es, i);
  }

  // ---------------------------------------------------------------------
  // Properties of each case

  /** An integer encodes to `i`, its signed decimal text, `e`; the text
      denotes the integer and carries a `-` exactly when it is negative. */
  lemma IntEncoding(n: int)
    ensures var r := Encode(BInt(n));
      r == [TagInt] + IntText(n) + [TagEnd] &&
      r[1..|r| - 1] == IntText(n) &&
      SignedValue(r[1..|r| - 1]) == n &&
      (r[1] == Minus <==> n < 0)
  {
    var r := Encode(BInt(n));
    assert r[1..|r| - 1] == IntText(n);
  }

  /** A byte string encodes to its length in decimal, a colon, and the bytes
      verbatim: the digits before the first colon say how many bytes follow. */
  lemma StrEncoding(b: Bytes)
    ensures var r := Encode(BStr(b)); var w := |NatText(|b|)|;
      |r| == w + 1 + |b| &&
      AllDigits(r[..w]) && DigitsValue(r[..w]) == |b| &&
      r[w] == Colon && r[w + 1..] == b &&
      |b| < Pow10(w) && (w > 1 ==> Pow10(w - 1) <= |b|)
  {
    var r := Encode(BStr(b));
    var w := |NatText(|b|)|;
    assert r[..w] == NatText(|b|);
    assert r[w + 1..] == b;
  }

  /** The first byte of an encoding tells the kind of value: `i`, `l` and
      `d` open an integer, a list and a dictionary, and a byte string starts
      with the digits of its length; all but byte strings end in `e`. */
  lemma EncodingKind(v: BValue)
    ensures var r := Encode(v);
      |r| >= 2 &&
      (v.BInt? <==> r[0] == TagInt) &&
      (v.BList? <==> r[0] == TagList) &&
      (v.BDict? <==> r[0] == TagDict) &&
      (v.BStr? <==> IsDigit(r[0])) &&
      (!v.BStr? ==> r[|r| - 1] == TagEnd)
  {
  }

  lemma {:induction false} EncodeItemsAppend(a: seq<BValue>, b: seq<BValue>)
    ensures EncodeItems(a + b) == EncodeItems(a) + EncodeItems(b)
    decreases |a|
  {
    if a != [] {
      assert (a + b)[0] == a[0] && (a + b)[1..] == a[1..] + b;
      EncodeItemsAppend(a[1..], b);
    } else {
      assert a + b == b;
    }
  }

  /** A list encodes to `l`, then every item's encoding in the list's order,
      then `e`: item `i` sits between the encodings of the items before it
      and those after it. */
  lemma ListEncodingAt(items: seq<BValue>, i: nat)
    requires i < |items|
    ensures Encode(BList(items)) ==
      [TagList] + (EncodeItems(items[..i]) + Encode(items[i]) + EncodeItems(items[i + 1..])) + [TagEnd]
  {
    var tail := [items[i]] + items[i + 1..];
    assert items == items[..i] + tail;
    EncodeItemsAppend(items[..i], tail);
    assert tail[0] == items[i] && tail[1..] == items[i + 1..];
  }

  lemma {:induction false} EncodeEntriesAppend(p: BValue, a: seq<Bytes>, b: seq<Bytes>)
    requires p.BDict?
    requires forall k :: k in a + b ==> k in Keys(p.entries)
    ensures EncodeEntries(p, a + b) == EncodeEntries(p, a) + EncodeEntries(p, b)
    decreases |a|
  {
    if a != [] {
      assert (a + b)[0] == a[0] && (a + b)[1..] == a[1..] + b;
      EncodeEntriesAppend(p, a[1..], b);
    } else {
      assert a + b == b;
    }
  }

  /** With distinct keys, the encoder writes every key exactly once and in
      strictly ascending `bytes` order. */
  lemma SortedKeysAscending(es: seq<Entry>)
    requires DistinctKeys(es)
    ensures var ks := EncodedKeyOrder(es);
      |ks| == |es| &&
      forall i, j :: 0 <= i < j < |ks| ==> KeyLess(ks[i], ks[j])
  {
    var ks := SortKeys(Keys(es));
    assert |ks| == |multiset(ks)| == |multiset(Keys(es))| == |es|;
    KeysOccurOnce(es);
    forall i, j | 0 <= i < j < |ks| ensures KeyLess(ks[i], ks[j]) {
      if ks[i] == ks[j] {
        OccursTwice(ks, i, j);
        assert false;
      }
      assert !KeyLess(ks[j], ks[i]);
      KeyLessTotal(ks[i], ks[j]);
    }
  }

  lemma OccursTwice(ks: seq<Bytes>, i: nat, j: nat)
    requires i < j < |ks| && ks[i] == ks[j]
    ensures multiset(ks)[ks[i]] >= 2
  {
    assert ks == ks[..j] + [ks[j]] + ks[j + 1..];
    assert ks[..j][i] == ks[i];
    assert multiset(ks) == multiset(ks[..j]) + multiset{ks[j]} + multiset(ks[j + 1..]);
  }

  /** Distinct keys: each key occurs once among the keys. */
  lemma {:induction false} KeysOccurOnce(es: seq<Entry>)
    requires DistinctKeys(es)
    ensures forall k :: multiset(Keys(es))[k] == if k in Keys(es) then 1 else 0
  {
    if es != [] {
      KeysOccurOnce(es[1..]);
      assert Keys(es) == [es[0].key] + Keys(es[1..]);
      assert es[0].key !in Keys(es[1..]);
    }
  }

  /** A dictionary encodes to `d`, then for each key in ascending order that
      key's encoding immediately followed by the encoding of its own value,
      then `e`. */
  lemma DictEncodingAt(es: seq<Entry>, i: nat)
    requires i < |EncodedKeyOrder(es)|
    ensures var ks := EncodedKeyOrder(es); var k := ks[i];
      Encode(BDict(es)) ==
        [TagDict] + (EncodeEntries(BDict(es), ks[..i])
          + (EncodeBytes(k) + Encode(es[Lookup(es, k)].value))
          + EncodeEntries(BDict(es), ks[i + 1..])) + [TagEnd]
  {
    var ks := EncodedKeyOrder(es);
    var p := BDict(es);
    assert Encode(p) == [TagDict] + EncodeEntries(p, ks) + [TagEnd];
    EncodeEntriesAt(p, ks, i);
  }

  lemma EncodeEntriesAt(p: BValue, ks: seq<Bytes>, i: nat)
    requires p.BDict? && i < |ks|
    requires forall k :: k in ks ==> k in Keys(p.entries)
    ensures EncodeEntries(p, ks) ==
      EncodeEntries(p, ks[..i]) + EncodeEntry(p, ks[i]) + EncodeEntries(p, ks[i + 1..])
  {
    var tail := [ks[i]] + ks[i + 1..];
    assert ks == ks[..i] + tail;
    EncodeEntriesAppend(p, ks[..i], tail);
    assert tail[0] == ks[i] && tail[1..] == ks[i + 1..];
    var a, x, c := EncodeEntries(p, ks[..i]), EncodeEntry(p, ks[i]), EncodeEntries(p, ks[i + 1..]);
    assert EncodeEntries(p, tail) == x + c;
    assert a + (x + c) == a + x + c;
  }

  /** Two dictionaries holding the same key/value pairs, whatever the order
      they were built in, encode identically. */
  lemma DictOrderIndependent(es1: seq<Entry>, es2: seq<Entry>)
    requires DistinctKeys(es1) && DistinctKeys(es2)
    requires forall e :: e in es1 <==> e in es2
    ensures Encode(BDict(es1)) == Encode(BDict(es2))
  {
    SameKeys(es1, es2);
    SameKeys(es2, es1);
    SameKeyOrder(es1, es2);
    var ks := EncodedKeyOrder(es1);
    forall k | k in ks
      ensures es1[Lookup(es1, k)].value == es2[Lookup(es2, k)].value
    {
      SameLookup(es1, es2, k);
    }
    SameValuesSameEntries(BDict(es1), BDict(es2), ks);
  }

  lemma SameKeys(es1: seq<Entry>, es2: seq<Entry>)
    requires forall e :: e in es1 ==> e in es2
    ensures forall k :: k in Keys(es1) ==> k in Keys(es2)
  {
    forall k | k in Keys(es1) ensures k in Keys(es2) {
      var j := Lookup(es1, k);
      assert es1[j] in es2;
    }
  }

  /** Dictionaries with the same keys have their keys written in the same order. */
  lemma SameKeyOrder(es1: seq<Entry>, es2: seq<Entry>)
    requires DistinctKeys(es1) && DistinctKeys(es2)
    requires forall k :: k in Keys(es1) <==> k in Keys(es2)
    ensures EncodedKeyOrder(es1) == EncodedKeyOrder(es2)
  {
    KeysOccurOnce(es1);
    KeysOccurOnce(es2);
    assert multiset(Keys(es1)) == multiset(Keys(es2));
    SortedUnique(SortKeys(Keys(es1)), SortKeys(Keys(es2)));
  }

  /** With distinct keys, `obj[key]` is the value paired with `key`. */
  lemma SameLookup(es1: seq<Entry>, es2: seq<Entry>, k: Bytes)
    requires DistinctKeys(es2)
    requires forall e :: e in es1 ==> e in es2
    requires k in Keys(es1) && k in Keys(es2)
    ensures es1[Lookup(es1, k)].value == es2[Lookup(es2, k)].value
  {
    var e := es1[Lookup(es1, k)];
    assert e in es2;
    var i :| 0 <= i < |es2| && es2[i] == e;
    var j := Lookup(es2, k);
    assert i == j by {
      if i < j { } else if j < i { }
    }
  }

  lemma {:induction false} SameValuesSameEntries(p: BValue, q: BValue, ks: seq<Bytes>)
    requires p.BDict? && q.BDict?
    requires forall k :: k in ks ==> k in Keys(p.entries) && k in Keys(q.entries)
    requires forall k :: k in ks ==>
      p.entries[Lookup(p.entries, k)].value == q.entries[Lookup(q.entries, k)].value
    ensures EncodeEntries(p, ks) == EncodeEntries(q, ks)
    decreases |ks|
  {
    if ks != [] {
      assert ks[0] in ks;
      SameValuesSameEntries(p, q, ks[1..]);
    }
  }

  /** Two values Python compares equal: integers and byte strings match
      exactly, lists item by item, and dictionaries (without repeated keys)
      hold the same keys with matching values, in whatever order they were
      built, at every depth. */
  predicate Same(v: BValue, w: BValue)
    decreases v
  {
    match v
    case BInt(n) => w == BInt(n)
    case BStr(s) => w == BStr(s)
    case BList(a) =>
      w.BList? && |a| == |w.items| && forall i :: 0 <= i < |a| ==> Same(a[i], w.items[i])
    case BDict(es) =>
      w.BDict? && DistinctKeys(es) && DistinctKeys(w.entries)
      && (forall k :: k in Keys(es) ==> k in Keys(w.entries))
      && (forall k :: k in Keys(w.entries) ==> k in Keys(es))
      && forall k :: k in Keys(es) ==>
           Same(es[Lookup(es, k)].value, w.entries[Lookup(w.entries, k)].value)
  }

  /** Every value without repeated keys is `Same` as itself. */
  lemma {:induction false} SameReflexive(v: BValue)
    requires WellFormed(v)
    ensures Same(v, v)
    decreases v
  {
    match v
    case BInt(_) =>
    case BStr(_) =>
    case BList(a) =>
      forall i | 0 <= i < |a| ensures Same(a[i], a[i]) {
        SameReflexive(a[i]);
      }
    case BDict(es) =>
      forall k | k in Keys(es) ensures Same(es[Lookup(es, k)].value, es[Lookup(es, k)].value) {
        SameReflexive(es[Lookup(es, k)].value);
      }
  }

  /** Values Python compares equal encode identically: the encoder's output
      does not depend on the insertion order of any dictionary, at any depth. */
  lemma {:induction false} SameEncode(v: BValue, w: BValue)
    requires Same(v, w)
    ensures Encode(v) == Encode(w)
    decreases v
  {
    match v
    case BInt(_) =>
    case BStr(_) =>
    case BList(a) =>
      SameItems(a, w.items);
    case BDict(es) =>
      SameKeyOrder(es, w.entries);
      SameEntries(v, w, EncodedKeyOrder(es));
  }

  lemma {:induction false} SameItems(a: seq<BValue>, b: seq<BValue>)
    requires |a| == |b| && forall i :: 0 <= i < |a| ==> Same(a[i], b[i])
    ensures EncodeItems(a) == EncodeItems(b)
    decreases a
  {
    if a != [] {
      SameEncode(a[0], b[0]);
      SameItems(a[1..], b[1..]);
    }
  }

  lemma {:induction false} SameEntries(p: BValue, q: BValue, ks: seq<Bytes>)
    requires p.BDict? && q.BDict?
    requires forall k :: k in ks ==> k in Keys(p.entries) && k in Keys(q.entries)
    requires forall k :: k in ks ==>
      Same(p.entries[Lookup(p.entries, k)].value, q.entries[Lookup(q.entries, k)].value)
    ensures EncodeEntries(p, ks) == EncodeEntries(q, ks)
    decreases p, |ks|
  {
    if ks != [] {
      assert ks[0] in ks;
      var j := Lookup(p.entries, ks[0]);
      SameEncode(p.entries[j].value, q.entries[Lookup(q.entries, ks[0])].value);
      SameEntries(p, q, ks[1..]);
    }
  }

  /** `bencode([])` is `le` and `bencode({})` is `de`. */
  lemma EmptyContainers()
    ensures Encode(BList([])) == [TagList, TagEnd]
    ensures Encode(BDict([])) == [TagDict, TagEnd]
  {
    assert SortKeys(Keys([])) == [];
  }

  /** One more round of the dictionary loop appends one key and its value. */
  lemma DictLoopStep(p: BValue, ks: seq<Bytes>, i: nat, result: Bytes, value: Bytes)
    requires p.BDict? && i < |ks|
    requires forall k :: k in ks ==> k in Keys(p.entries)
    requires result == [TagDict] + EncodeEntries(p, ks[..i])
    requires ks[i] in Keys(p.entries)
    requires value == Encode(p.entries[Lookup(p.entries, ks[i])].value)
    ensures result + (EncodeBytes(ks[i]) + value) == [TagDict] + EncodeEntries(p, ks[..i + 1])
  {
    assert ks[..i + 1] == ks[..i] + [ks[i]];
    EncodeEntriesAppend(p, ks[..i], [ks[i]]);
    assert [ks[i]][1..] == ks[..0];
    assert EncodeEntries(p, [ks[i]]) == EncodeBytes(ks[i]) + value;
    AppendAssoc([TagDict], EncodeEntries(p, ks[..i]), EncodeBytes(ks[i]) + value);
  }

  /** One more round of the list loop appends one item's encoding. */
  lemma ListLoopStep(items: seq<BValue>, i: nat, result: Bytes, item: Bytes)
    requires i < |items|
    requires result == [TagList] + EncodeItems(items[..i])
    requires item == Encode(items[i])
    ensures result + item == [TagList] + EncodeItems(items[..i + 1])
  {
    assert items[..i + 1] == items[..i] + [items[i]];
    EncodeItemsAppend(items[..i], [items[i]]);
    assert [items[i]][1..] == items[..0];
    assert EncodeItems([items[i]]) == item;
    AppendAssoc([TagList], EncodeItems(items[..i]), item);
  }

  // ---------------------------------------------------------------------
  // The encoder as the source runs it

  /** `bencode(obj)` step by step: the list and dictionary cases start
      `result` at `l` or `d`, grow it with `+=` once per item or key in a
      `for` loop, and close it with `e`. It computes exactly `Encode`. */
  method EncodeWithLoops(v: BValue) returns (result: Bytes)
    ensures result == Encode(v)
    decreases v, 1
  {
    match v
    case BInt(n) =>
      result := [TagInt] + IntText(n) + [TagEnd];
    case BStr(s) =>
      result := EncodeBytes(s);
    case BDict(es) =>
      result := EncodeDictWithLoop(v);
    case BList(items) =>
      result := EncodeListWithLoop(v);
  }

  method EncodeDictWithLoop(v: BValue) returns (result: Bytes)
    requires v.BDict?
    ensures result == Encode(v)
    decreases v, 0
  {
    var es := v.entries;
    var keys := EncodedKeyOrder(es);
    result := [TagDict];
    for i := 0 to |keys|
      invariant result == [TagDict] + EncodeEntries(v, keys[..i])
    {
      var k := keys[i];
      assert k in keys;
      var j := Lookup(es, k);
      var value := EncodeWithLoops(es[j].value);
      DictLoopStep(v, keys, i, result, value);
      result := result + (EncodeBytes(k) + value);
    }
    assert keys[..|keys|] == keys;
    result := result + [TagEnd];
  }

  method EncodeListWithLoop(v: BValue) returns (result: Bytes)
    requires v.BList?
    ensures result == Encode(v)
    decreases v, 0
  {
    var items := v.items;
    result := [TagList];
    for i := 0 to |items|
      invariant result == [TagList] + EncodeItems(items[..i])
    {
      var item := EncodeWithLoops(items[i]);
      ListLoopStep(items, i, result, item);
      result := result + item;
    }
    assert items[..|items|] == items;
    result := result + [TagEnd];
  }
}
