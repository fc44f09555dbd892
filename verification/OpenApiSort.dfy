/**
 * The recursive key sorter behind the serialized API documents. Objects are lists of members in
 * JavaScript's enumeration order: index-like keys ascending, then the others as they were assigned.
 */
module OpenApiSort {
  import opened Prelude

  datatype Json =
    | Scalar(text: string)
    | Arr(items: seq<Json>)
    | Obj(members: seq<Member>)
  datatype Member = Member(key: string, value: Json)

  /** Assigning this key sets the prototype instead of adding a property. */
  const PROTO := "__proto__"

  // ---- Objects ------------------------------------------------------------

  function KeysOf(ms: seq<Member>): (r: seq<string>)
    ensures |r| == |ms| && forall i :: 0 <= i < |r| ==> r[i] == ms[i].key
  {
    seq(|ms|, i requires 0 <= i < |ms| => ms[i].key)
  }

  ghost predicate WellFormed(j: Json)
    decreases j
  {
    match j
    case Scalar(_) => true
    case Arr(items) => forall i :: 0 <= i < |items| ==> WellFormed(items[i])
    case Obj(ms) => Distinct(KeysOf(ms)) && forall i :: 0 <= i < |ms| ==> WellFormed(ms[i].value)
  }

  predicate Has(ms: seq<Member>, key: string) {
    exists i :: 0 <= i < |ms| && ms[i].key == key
  }

  function PlaceOf(ms: seq<Member>, key: string): (i: nat)
    requires Has(ms, key)
    ensures i < |ms| && ms[i].key == key
  {
    if ms[0].key == key then
      0
    else
      assert Has(ms[1..], key) by {
        var i :| 0 <= i < |ms| && ms[i].key == key;
        assert ms[1..][i - 1].key == key;
      }
      1 + PlaceOf(ms[1..], key)
  }

  function Get(ms: seq<Member>, key: string): Json
    requires Has(ms, key)
  {
    ms[PlaceOf(ms, key)].value
  }

  // ---- Assignment ---------------------------------------------------------

  const INDEX_LIMIT := 0xffff_ffff

  predicate Digit(c: char) {
    '0' <= c <= '9'
  }

  function DigitValue(c: char): nat
    requires Digit(c)
  {
    c as int - '0' as int
  }

  function DecimalValue(s: string): nat
    requires forall i :: 0 <= i < |s| ==> Digit(s[i])
  {
    if s == "" then 0 else DecimalValue(s[..|s| - 1]) * 10 + DigitValue(s[|s| - 1])
  }

  /** An array index in canonical form. */
  predicate IndexLike(key: string) {
    && key != ""
    && (forall i :: 0 <= i < |key| ==> Digit(key[i]))
    && (key == "0" || key[0] != '0')
    && DecimalValue(key) < INDEX_LIMIT
  }

  /** A new index-like key goes before this member. */
  predicate GoesBefore(key: string, m: Member) {
    IndexLike(key) && (!IndexLike(m.key) || DecimalValue(key) < DecimalValue(m.key))
  }

  function InsertMember(ms: seq<Member>, m: Member): seq<Member> {
    if ms == [] || GoesBefore(m.key, ms[0]) then [m] + ms else [ms[0]] + InsertMember(ms[1..], m)
  }

  /** `record[key] = value` on a plain object, for a key it does not have yet. */
  function Assign(ms: seq<Member>, key: string, value: Json): seq<Member> {
    if key == PROTO then ms else InsertMember(ms, Member(key, value))
  }

  // ---- The sorter ---------------------------------------------------------

  /** `leq(a, b)` stands for `a.localeCompare(b) <= 0`; the sort is stable. */
  function SortValue(leq: (string, string) -> bool, j: Json): Json
    decreases j, 1, 0
  {
    match j
    case Scalar(_) => j
    case Arr(items) => Arr(seq(|items|, i requires 0 <= i < |items| => SortValue(leq, items[i])))
    case Obj(ms) =>
      SortKeysAreKeys(leq, ms);
      Obj(Fill(leq, j, SortBy(leq, KeysOf(ms))))
  }

  lemma SortKeysAreKeys(leq: (string, string) -> bool, ms: seq<Member>)
    ensures forall key :: key in SortBy(leq, KeysOf(ms)) <==> Has(ms, key)
  {
    forall key ensures key in SortBy(leq, KeysOf(ms)) <==> Has(ms, key) {
      assert key in SortBy(leq, KeysOf(ms)) <==> key in multiset(SortBy(leq, KeysOf(ms)));
      assert key in KeysOf(ms) <==> key in multiset(KeysOf(ms));
      if Has(ms, key) {
        var i :| 0 <= i < |ms| && ms[i].key == key;
        assert KeysOf(ms)[i] == key;
      }
    }
  }

  /** The object after assigning the sorted values of these keys, in this order. */
  function Fill(leq: (string, string) -> bool, j: Json, keys: seq<string>): seq<Member>
    requires j.Obj? && forall i :: 0 <= i < |keys| ==> Has(j.members, keys[i])
    decreases j, 0, |keys|
  {
    if keys == [] then
      []
    else
      var last := keys[|keys| - 1];
      Assign(Fill(leq, j, keys[..|keys| - 1]), last, SortValue(leq, Get(j.members, last)))
  }

  method SortJson(leq: (string, string) -> bool, j: Json) returns (sorted: Json)
    ensures sorted == SortValue(leq, j)
    decreases j
  {
    match j {
      case Scalar(_) => return j;
      case Arr(items) =>
        var out: seq<Json> := [];
        for k := 0 to |items|
          invariant |out| == k && forall i :: 0 <= i < k ==> out[i] == SortValue(leq, items[i])
        {
          var item := SortJson(leq, items[k]);
          out := out + [item];
        }
        return Arr(out);
      case Obj(ms) =>
        SortKeysAreKeys(leq, ms);
        var keys := SortBy(leq, KeysOf(ms));
        var record: seq<Member> := [];
        for k := 0 to |keys|
          invariant record == Fill(leq, j, keys[..k])
        {
          assert keys[..k + 1][..k] == keys[..k];
          var value := SortJson(leq, Get(ms, keys[k]));
          record := Assign(record, keys[k], value);
        }
        assert keys[..|keys|] == keys;
        return Obj(record);
    }
  }

  // ---- Equality up to key order -------------------------------------------

  /** The same tree, but for the order of keys at any depth, and for members that cannot be assigned. */
  ghost predicate Same(a: Json, b: Json)
    decreases a
  {
    match (a, b)
    case (Scalar(s), Scalar(t)) => s == t
    case (Arr(xs), Arr(ys)) => |xs| == |ys| && forall i :: 0 <= i < |xs| ==> Same(xs[i], ys[i])
    case (Obj(ms), Obj(ns)) =>
      && (forall key :: key != PROTO ==> (Has(ms, key) <==> Has(ns, key)))
      && (forall i :: 0 <= i < |ms| && ms[i].key != PROTO && Has(ns, ms[i].key) ==>
            Same(ms[i].value, Get(ns, ms[i].key)))
    case _ => false
  }

  lemma GetIsUnique(ms: seq<Member>, i: nat)
    requires Distinct(KeysOf(ms)) && i < |ms|
    ensures Has(ms, ms[i].key) && Get(ms, ms[i].key) == ms[i].value
  {
    var k := PlaceOf(ms, ms[i].key);
    assert KeysOf(ms)[k] == KeysOf(ms)[i];
  }

  // ---- What filling does --------------------------------------------------

  lemma {:induction false} InsertHas(ms: seq<Member>, m: Member, key: string)
    ensures Has(InsertMember(ms, m), key) <==> Has(ms, key) || key == m.key
  {
    var out := InsertMember(ms, m);
    if ms == [] || GoesBefore(m.key, ms[0]) {
      assert out[0] == m && out[1..] == ms;
      HasTail(out, key);
    } else {
      InsertHas(ms[1..], m, key);
      assert out[1..] == InsertMember(ms[1..], m);
      HasTail(out, key);
      HasTail(ms, key);
    }
  }

  lemma HasTail(ms: seq<Member>, key: string)
    requires ms != []
    ensures Has(ms, key) <==> ms[0].key == key || Has(ms[1..], key)
    ensures Has(ms, key) ==> Get(ms, key) == if ms[0].key == key then ms[0].value else Get(ms[1..], key)
  {
    if Has(ms, key) && ms[0].key != key {
      var i :| 0 <= i < |ms| && ms[i].key == key;
      assert ms[1..][i - 1].key == key;
    }
    if Has(ms[1..], key) {
      var i :| 0 <= i < |ms[1..]| && ms[1..][i].key == key;
      assert ms[i + 1].key == key;
    }
  }

  lemma {:induction false} InsertGet(ms: seq<Member>, m: Member, key: string)
    requires !Has(ms, m.key) && (Has(ms, key) || key == m.key)
    ensures Has(InsertMember(ms, m), key)
    ensures Get(InsertMember(ms, m), key) == if key == m.key then m.value else Get(ms, key)
  {
    var out := InsertMember(ms, m);
    InsertHas(ms, m, key);
    HasTail(out, key);
    if ms == [] || GoesBefore(m.key, ms[0]) {
      assert out[0] == m && out[1..] == ms;
    } else {
      HasTail(ms, m.key);
      HasTail(ms, key);
      assert out[0] == ms[0] && out[1..] == InsertMember(ms[1..], m);
      if ms[0].key != key {
        InsertGet(ms[1..], m, key);
      }
    }
  }

  lemma {:induction false} InsertDistinct(ms: seq<Member>, m: Member)
    requires Distinct(KeysOf(ms)) && !Has(ms, m.key)
    ensures Distinct(KeysOf(InsertMember(ms, m)))
  {
    var out := InsertMember(ms, m);
    if ms == [] || GoesBefore(m.key, ms[0]) {
      assert out == [m] + ms;
      forall i, j | 0 <= i < j < |out| ensures out[i].key != out[j].key {
        if i > 0 { assert KeysOf(ms)[i - 1] != KeysOf(ms)[j - 1]; }
      }
    } else {
      HasTail(ms, m.key);
      forall i, j | 0 <= i < j < |ms[1..]| ensures KeysOf(ms[1..])[i] != KeysOf(ms[1..])[j] {
        assert KeysOf(ms)[i + 1] != KeysOf(ms)[j + 1];
      }
      InsertDistinct(ms[1..], m);
      var tail := InsertMember(ms[1..], m);
      assert out == [ms[0]] + tail;
      forall j | 0 < j < |out| ensures out[j].key != ms[0].key {
        assert tail[j - 1].key == out[j].key;
        InsertHas(ms[1..], m, tail[j - 1].key);
        if Has(ms[1..], tail[j - 1].key) {
          var k := PlaceOf(ms[1..], tail[j - 1].key);
          assert KeysOf(ms)[0] != KeysOf(ms)[k + 1];
        }
        assert ms[0].key != m.key;
      }
      forall i, j | 0 <= i < j < |out| ensures out[i].key != out[j].key {
        if i > 0 { assert KeysOf(tail)[i - 1] != KeysOf(tail)[j - 1]; }
      }
    }
  }

  ghost predicate KeysOk(j: Json, keys: seq<string>) {
    j.Obj? && Distinct(keys) && forall i :: 0 <= i < |keys| ==> Has(j.members, keys[i])
  }

  /** Filling makes one member per key, none for the prototype, and no key twice. */
  lemma {:induction false} FillHas(leq: (string, string) -> bool, j: Json, keys: seq<string>, key: string)
    requires KeysOk(j, keys)
    ensures Has(Fill(leq, j, keys), key) <==> key in keys && key != PROTO
    ensures key in keys && key != PROTO ==> Get(Fill(leq, j, keys), key) == SortValue(leq, Get(j.members, key))
  {
    if keys != [] {
      var shorter, last := keys[..|keys| - 1], keys[|keys| - 1];
      assert keys == shorter + [last];
      FillHas(leq, j, shorter, key);
      FillHas(leq, j, shorter, last);
      if last != PROTO {
        var before, m := Fill(leq, j, shorter), Member(last, SortValue(leq, Get(j.members, last)));
        InsertHas(before, m, key);
        if Has(before, key) || key == last {
          InsertGet(before, m, key);
        }
      }
    }
  }

  lemma {:induction false} FillDistinct(leq: (string, string) -> bool, j: Json, keys: seq<string>)
    requires KeysOk(j, keys)
    ensures Distinct(KeysOf(Fill(leq, j, keys)))
  {
    if keys != [] {
      var shorter, last := keys[..|keys| - 1], keys[|keys| - 1];
      FillDistinct(leq, j, shorter);
      FillHas(leq, j, shorter, last);
      if last != PROTO {
        InsertDistinct(Fill(leq, j, shorter), Member(last, SortValue(leq, Get(j.members, last))));
      }
    }
  }

  lemma SortedKeysOk(leq: (string, string) -> bool, j: Json)
    requires TotalPreorder(leq) && j.Obj? && Distinct(KeysOf(j.members))
    ensures KeysOk(j, SortBy(leq, KeysOf(j.members))) && Sorted(leq, SortBy(leq, KeysOf(j.members)))
    ensures forall key :: key in SortBy(leq, KeysOf(j.members)) <==> Has(j.members, key)
  {
    SortBySorted(leq, KeysOf(j.members));
    SortKeysAreKeys(leq, j.members);
    PermutationDistinct(KeysOf(j.members), SortBy(leq, KeysOf(j.members)));
  }

  // ---- Index-like keys first, the others in their order -------------------

  /** A key that is assigned at the end. */
  predicate Plain(key: string) {
    key != PROTO && !IndexLike(key)
  }

  /** Decimal digits without a leading zero, or nothing. */
  predicate Canonical(s: string) {
    (forall i :: 0 <= i < |s| ==> Digit(s[i])) && (s == "" || s[0] != '0')
  }

  lemma {:induction false} CanonicalPositive(s: string)
    requires Canonical(s) && s != ""
    ensures DecimalValue(s) >= 1
  {
    var n := |s| - 1;
    if n > 0 { CanonicalPositive(s[..n]); }
  }

  lemma {:induction false} CanonicalUnique(s: string, t: string)
    requires Canonical(s) && Canonical(t) && DecimalValue(s) == DecimalValue(t)
    ensures s == t
  {
    if s == "" || t == "" {
      if s != "" { CanonicalPositive(s); }
      if t != "" { CanonicalPositive(t); }
    } else {
      var m, n := |s| - 1, |t| - 1;
      TensAndOnes(DecimalValue(s[..m]), DigitValue(s[m]), DecimalValue(t[..n]), DigitValue(t[n]));
      CanonicalUnique(s[..m], t[..n]);
      assert s == s[..m] + [s[m]] && t == t[..n] + [t[n]];
    }
  }

  lemma TensAndOnes(a: nat, c: nat, b: nat, d: nat)
    requires c < 10 && d < 10 && a * 10 + c == b * 10 + d
    ensures a == b && c == d
  {
  }

  /** Different index-like keys have different values. */
  lemma IndexValueUnique(s: string, t: string)
    requires IndexLike(s) && IndexLike(t) && DecimalValue(s) == DecimalValue(t)
    ensures s == t
  {
    assert DecimalValue("0") == DecimalValue("0"[..0]) * 10;
    if s != "0" { CanonicalPositive(s); }
    if t != "0" { CanonicalPositive(t); }
    if s != "0" && t != "0" { CanonicalUnique(s, t); }
  }

  ghost predicate Rising(ms: seq<Member>) {
    && (forall i :: 0 <= i < |ms| ==> IndexLike(ms[i].key))
    && (forall i, j :: 0 <= i < j < |ms| ==> DecimalValue(ms[i].key) < DecimalValue(ms[j].key))
  }

  lemma {:induction false} RisingUnique(s: seq<Member>, t: seq<Member>)
    requires Rising(s) && Rising(t) && forall m :: m in s <==> m in t
    ensures s == t
  {
    FirstIn(s);
    FirstIn(t);
    if s != [] && t != [] {
      assert s[0] == t[0];
      forall m ensures m in s[1..] <==> m in t[1..] {
        assert s == [s[0]] + s[1..] && t == [t[0]] + t[1..];
        assert m in s[1..] ==> m in s && m != s[0];
        assert m in t[1..] ==> m in t && m != t[0];
      }
      hide IndexLike, DecimalValue;
      RisingUnique(s[1..], t[1..]);
    }
  }

  lemma FirstIn(s: seq<Member>)
    ensures s != [] ==> s[0] in s
  {
  }

  lemma {:induction false} InsertPlain(ms: seq<Member>, m: Member)
    requires !IndexLike(m.key)
    ensures InsertMember(ms, m) == ms + [m]
  {
    if ms == [] {
      assert [m] + ms == ms + [m];
    } else {
      InsertPlain(ms[1..], m);
      assert ms == [ms[0]] + ms[1..];
    }
  }

  lemma {:induction false} InsertIndex(ix: seq<Member>, rest: seq<Member>, m: Member)
    requires IndexLike(m.key) && forall i :: 0 <= i < |rest| ==> !IndexLike(rest[i].key)
    ensures InsertMember(ix + rest, m) == InsertMember(ix, m) + rest
  {
    if ix == [] {
      assert ix + rest == rest && [m] + ix == [m];
    } else {
      assert (ix + rest)[1..] == ix[1..] + rest;
      InsertIndex(ix[1..], rest, m);
      hide IndexLike, DecimalValue;
    }
  }

  lemma {:induction false} InsertRising(ix: seq<Member>, m: Member)
    requires Rising(ix) && IndexLike(m.key)
    requires forall i :: 0 <= i < |ix| ==> DecimalValue(ix[i].key) != DecimalValue(m.key)
    ensures Rising(InsertMember(ix, m))
    ensures forall x :: x in InsertMember(ix, m) <==> x in ix || x == m
  {
    var out := InsertMember(ix, m);
    if ix == [] || GoesBefore(m.key, ix[0]) {
      hide IndexLike, DecimalValue;
    } else {
      InsertRising(ix[1..], m);
      var tail := InsertMember(ix[1..], m);
      assert out == [ix[0]] + tail && ix == [ix[0]] + ix[1..];
      forall j | 0 <= j < |tail| ensures DecimalValue(ix[0].key) < DecimalValue(tail[j].key) {
        assert tail[j] in tail;
      }
      forall j | 0 <= j < |tail| ensures IndexLike(tail[j].key) {}
      hide IndexLike, DecimalValue, InsertMember;
    }
  }

  /** The members assigned for the plain ones of these keys, in this order. */
  ghost function PlainPart(leq: (string, string) -> bool, j: Json, keys: seq<string>): (ms: seq<Member>)
    requires KeysOk(j, keys)
    ensures KeysOf(ms) == Filter(Plain, keys)
  {
    var plain := Filter(Plain, keys);
    seq(|plain|, i requires 0 <= i < |plain| =>
      assert plain[i] in plain;
      Member(plain[i], SortValue(leq, Get(j.members, plain[i]))))
  }

  ghost predicate IndexPart(leq: (string, string) -> bool, j: Json, keys: seq<string>, ix: seq<Member>)
    requires KeysOk(j, keys)
  {
    && Rising(ix)
    && (forall m :: m in ix <==>
          IndexLike(m.key) && m.key in keys && m.value == SortValue(leq, Get(j.members, m.key)))
  }

  /** A filled object: its index-like members by value, then the plain ones as their keys were given. */
  lemma {:induction false} FillParts(leq: (string, string) -> bool, j: Json, keys: seq<string>)
    returns (ix: seq<Member>)
    requires KeysOk(j, keys)
    ensures IndexPart(leq, j, keys, ix)
    ensures Fill(leq, j, keys) == ix + PlainPart(leq, j, keys)
  {
    if keys == [] {
      ix := [];
    } else {
      var shorter, last := keys[..|keys| - 1], keys[|keys| - 1];
      assert keys == shorter + [last];
      ix := FillParts(leq, j, shorter);
      ix := OneMorePart(leq, j, shorter, last, ix);
    }
  }

  lemma OneMorePart(leq: (string, string) -> bool, j: Json, keys: seq<string>, last: string, ix: seq<Member>)
    returns (more: seq<Member>)
    requires KeysOk(j, keys) && KeysOk(j, keys + [last]) && Has(j.members, last) && IndexPart(leq, j, keys, ix)
    requires Fill(leq, j, keys) == ix + PlainPart(leq, j, keys)
    ensures IndexPart(leq, j, keys + [last], more)
    ensures Fill(leq, j, keys + [last]) == more + PlainPart(leq, j, keys + [last])
  {
    if IndexLike(last) {
      more := InsertMember(ix, Member(last, SortValue(leq, Get(j.members, last))));
      OneMoreIndex(leq, j, keys, last, ix);
    } else {
      more := ix;
      OneMorePlain(leq, j, keys, last, ix);
    }
  }

  lemma OneMoreIndex(leq: (string, string) -> bool, j: Json, keys: seq<string>, last: string, ix: seq<Member>)
    requires KeysOk(j, keys) && KeysOk(j, keys + [last]) && Has(j.members, last) && IndexPart(leq, j, keys, ix)
    requires Fill(leq, j, keys) == ix + PlainPart(leq, j, keys) && IndexLike(last)
    ensures var more := InsertMember(ix, Member(last, SortValue(leq, Get(j.members, last))));
      && IndexPart(leq, j, keys + [last], more)
      && Fill(leq, j, keys + [last]) == more + PlainPart(leq, j, keys + [last])
  {
    FillAppend(leq, j, keys, last);
    FilterAppend(Plain, keys, last);
    PlainPartIsPlain(leq, j, keys);
    InsertIndex(ix, PlainPart(leq, j, keys), Member(last, SortValue(leq, Get(j.members, last))));
    IndexGrows(leq, j, keys, last, ix);
    ProtoIsNoIndex();
    PlainGrows(leq, j, keys, last);
    hide *;
  }

  lemma OneMorePlain(leq: (string, string) -> bool, j: Json, keys: seq<string>, last: string, ix: seq<Member>)
    requires KeysOk(j, keys) && KeysOk(j, keys + [last]) && Has(j.members, last) && IndexPart(leq, j, keys, ix)
    requires Fill(leq, j, keys) == ix + PlainPart(leq, j, keys) && !IndexLike(last)
    ensures IndexPart(leq, j, keys + [last], ix)
    ensures Fill(leq, j, keys + [last]) == ix + PlainPart(leq, j, keys + [last])
  {
    var plain, m := PlainPart(leq, j, keys), Member(last, SortValue(leq, Get(j.members, last)));
    IndexStays(leq, j, keys, last, ix);
    FillAppend(leq, j, keys, last);
    PlainGrows(leq, j, keys, last);
    InsertPlain(ix + plain, m);
    assert Assign(ix + plain, last, m.value) == if last == PROTO then ix + plain else ix + plain + [m];
    hide *;
    if last != PROTO {
      Glued(ix, plain, m);
    }
  }

  lemma Glued(ix: seq<Member>, plain: seq<Member>, m: Member)
    ensures ix + plain + [m] == ix + (plain + [m])
  {
  }

  lemma PlainGrows(leq: (string, string) -> bool, j: Json, keys: seq<string>, last: string)
    requires KeysOk(j, keys) && KeysOk(j, keys + [last]) && Has(j.members, last)
    ensures PlainPart(leq, j, keys + [last]) ==
      if !IndexLike(last) && last != PROTO
      then PlainPart(leq, j, keys) + [Member(last, SortValue(leq, Get(j.members, last)))]
      else PlainPart(leq, j, keys)
  {
    FilterAppend(Plain, keys, last);
    hide SortValue, Get, Has, IndexLike, KeysOk;
  }

  lemma PlainPartIsPlain(leq: (string, string) -> bool, j: Json, keys: seq<string>)
    requires KeysOk(j, keys)
    ensures var plain := PlainPart(leq, j, keys); forall i :: 0 <= i < |plain| ==> !IndexLike(plain[i].key)
  {
    var plain := PlainPart(leq, j, keys);
    forall i | 0 <= i < |plain| ensures !IndexLike(plain[i].key) {
      assert KeysOf(plain)[i] in Filter(Plain, keys);
    }
  }

  lemma IndexGrows(leq: (string, string) -> bool, j: Json, keys: seq<string>, last: string, ix: seq<Member>)
    requires KeysOk(j, keys) && KeysOk(j, keys + [last]) && Has(j.members, last) && IndexPart(leq, j, keys, ix)
    requires IndexLike(last)
    ensures IndexPart(leq, j, keys + [last], InsertMember(ix, Member(last, SortValue(leq, Get(j.members, last)))))
  {
    assert (keys + [last])[|keys|] == last && forall i :: 0 <= i < |keys| ==> (keys + [last])[i] == keys[i];
    assert last !in keys;
    hide SortValue, DecimalValue, Get, Has, IndexLike;
    forall i | 0 <= i < |ix| ensures DecimalValue(ix[i].key) != DecimalValue(last) {
      assert ix[i] in ix;
      if DecimalValue(ix[i].key) == DecimalValue(last) { IndexValueUnique(ix[i].key, last); }
    }
    InsertRising(ix, Member(last, SortValue(leq, Get(j.members, last))));
    hide InsertMember;
  }

  lemma IndexStays(leq: (string, string) -> bool, j: Json, keys: seq<string>, last: string, ix: seq<Member>)
    requires KeysOk(j, keys) && KeysOk(j, keys + [last]) && IndexPart(leq, j, keys, ix) && !IndexLike(last)
    ensures IndexPart(leq, j, keys + [last], ix)
  {
    hide IndexLike, DecimalValue, Get, Has, SortValue;
  }

  lemma FillAppend(leq: (string, string) -> bool, j: Json, keys: seq<string>, last: string)
    requires j.Obj? && Has(j.members, last) && forall i :: 0 <= i < |keys| ==> Has(j.members, keys[i])
    ensures Fill(leq, j, keys + [last]) == Assign(Fill(leq, j, keys), last, SortValue(leq, Get(j.members, last)))
  {
    assert (keys + [last])[..|keys|] == keys;
  }

  /** Of the keys only the order of the plain ones matters, and of the objects only the sorted values. */
  lemma FillsEqual(leq: (string, string) -> bool, a: Json, ks: seq<string>, b: Json, ls: seq<string>)
    requires KeysOk(a, ks) && KeysOk(b, ls) && Filter(Plain, ks) == Filter(Plain, ls)
    requires forall key :: key != PROTO ==> (key in ks <==> key in ls)
    requires forall key :: key in ks && key in ls && key != PROTO ==>
               SortValue(leq, Get(a.members, key)) == SortValue(leq, Get(b.members, key))
    ensures Fill(leq, a, ks) == Fill(leq, b, ls)
  {
    var ix := FillParts(leq, a, ks);
    var jx := FillParts(leq, b, ls);
    ProtoIsNoIndex();
    forall m ensures m in ix <==> m in jx {
      assert IndexLike(m.key) ==> m.key != PROTO;
    }
    hide Fill, SortValue, Get, Has, IndexLike;
    RisingUnique(ix, jx);
    var plain := Filter(Plain, ks);
    forall i | 0 <= i < |plain| ensures PlainPart(leq, a, ks)[i] == PlainPart(leq, b, ls)[i] {
      assert plain[i] in Filter(Plain, ks) && plain[i] in Filter(Plain, ls);
    }
  }

  lemma ProtoIsNoIndex()
    ensures !IndexLike(PROTO)
  {
    assert PROTO[0] == '_';
  }

  // ---- The canonical form -------------------------------------------------

  /** Of no object in the tree do two plain keys collate as equal; values that cannot be assigned do not count. */
  ghost predicate NoTies(leq: (string, string) -> bool, j: Json)
    decreases j
  {
    match j
    case Scalar(_) => true
    case Arr(items) => forall i :: 0 <= i < |items| ==> NoTies(leq, items[i])
    case Obj(ms) =>
      && NoTie(leq, Filter(Plain, KeysOf(ms)))
      && forall i :: 0 <= i < |ms| && ms[i].key != PROTO ==> NoTies(leq, ms[i].value)
  }

  lemma {:induction false} SameSortsEqual(leq: (string, string) -> bool, a: Json, b: Json)
    requires TotalPreorder(leq) && NoTies(leq, a) && WellFormed(a) && WellFormed(b) && Same(a, b)
    ensures SortValue(leq, a) == SortValue(leq, b)
    decreases a
  {
    match (a, b)
    case (Arr(xs), Arr(ys)) =>
      forall i | 0 <= i < |xs| ensures SortValue(leq, xs[i]) == SortValue(leq, ys[i]) {
        SameSortsEqual(leq, xs[i], ys[i]);
      }
    case (Obj(ms), Obj(ns)) =>
      var ks, ls := SortBy(leq, KeysOf(ms)), SortBy(leq, KeysOf(ns));
      SortedKeysOk(leq, a);
      SortedKeysOk(leq, b);
      SamePlainKeys(leq, KeysOf(ms), KeysOf(ns));
      forall key | key in ks && key in ls && key != PROTO
        ensures SortValue(leq, Get(ms, key)) == SortValue(leq, Get(ns, key))
      {
        var i := PlaceOf(ms, key);
        assert WellFormed(ms[i].value) && WellFormed(ns[PlaceOf(ns, key)].value);
        SameSortsEqual(leq, ms[i].value, Get(ns, key));
      }
      FillsEqual(leq, a, ks, b, ls);
    case _ =>
  }

  /** Without ties the same plain keys are sorted the same way, whatever the others. */
  lemma SamePlainKeys(leq: (string, string) -> bool, ks: seq<string>, ls: seq<string>)
    requires TotalPreorder(leq) && NoTie(leq, Filter(Plain, ks)) && Distinct(ks) && Distinct(ls)
    requires forall key :: key != PROTO ==> (key in SortBy(leq, ks) <==> key in SortBy(leq, ls))
    ensures Filter(Plain, SortBy(leq, ks)) == Filter(Plain, SortBy(leq, ls))
  {
    var sorted, other := Filter(Plain, SortBy(leq, ks)), Filter(Plain, SortBy(leq, ls));
    SortBySorted(leq, ks);
    SortBySorted(leq, ls);
    PermutationDistinct(ks, SortBy(leq, ks));
    PermutationDistinct(ls, SortBy(leq, ls));
    FilterSorted(leq, Plain, SortBy(leq, ks));
    FilterSorted(leq, Plain, SortBy(leq, ls));
    FilterDistinct(Plain, SortBy(leq, ks));
    FilterDistinct(Plain, SortBy(leq, ls));
    SameElementsPermute(sorted, other);
    forall x | x in sorted ensures x in Filter(Plain, ks) {
      assert x in multiset(SortBy(leq, ks)) && x in multiset(ks);
    }
    SortedUnique(leq, sorted, other);
  }

  lemma {:induction false} EqualSortsSame(leq: (string, string) -> bool, a: Json, b: Json)
    requires TotalPreorder(leq) && WellFormed(a) && WellFormed(b)
    requires SortValue(leq, a) == SortValue(leq, b)
    ensures Same(a, b)
    decreases a
  {
    match (a, b)
    case (Arr(xs), Arr(ys)) =>
      forall i | 0 <= i < |xs| ensures Same(xs[i], ys[i]) {
        assert SortValue(leq, a).items[i] == SortValue(leq, b).items[i];
        EqualSortsSame(leq, xs[i], ys[i]);
      }
    case (Obj(ms), Obj(ns)) =>
      var ks, ls := SortBy(leq, KeysOf(ms)), SortBy(leq, KeysOf(ns));
      SortedKeysOk(leq, a);
      SortedKeysOk(leq, b);
      forall key | key != PROTO
        ensures Has(ms, key) <==> Has(ns, key)
        ensures Has(ms, key) ==> SortValue(leq, Get(ms, key)) == SortValue(leq, Get(ns, key))
      {
        FillHas(leq, a, ks, key);
        FillHas(leq, b, ls, key);
      }
      forall i | 0 <= i < |ms| && ms[i].key != PROTO && Has(ns, ms[i].key)
        ensures Same(ms[i].value, Get(ns, ms[i].key))
      {
        GetIsUnique(ms, i);
        assert WellFormed(ns[PlaceOf(ns, ms[i].key)].value);
        EqualSortsSame(leq, ms[i].value, Get(ns, ms[i].key));
      }
    case _ =>
  }

  /** Without ties in one of them, two trees sort to the same tree exactly when they are equal up to key order. */
  lemma SortedIffSame(leq: (string, string) -> bool, a: Json, b: Json)
    requires TotalPreorder(leq) && NoTies(leq, a) && WellFormed(a) && WellFormed(b)
    ensures SortValue(leq, a) == SortValue(leq, b) <==> Same(a, b)
  {
    if Same(a, b) { SameSortsEqual(leq, a, b); }
    if SortValue(leq, a) == SortValue(leq, b) { EqualSortsSame(leq, a, b); }
  }

  // ---- Ties ---------------------------------------------------------------

  lemma {:induction false} SameReflexive(j: Json)
    requires WellFormed(j)
    ensures Same(j, j)
    decreases j
  {
    match j
    case Scalar(_) =>
    case Arr(items) =>
      forall i | 0 <= i < |items| ensures Same(items[i], items[i]) { SameReflexive(items[i]); }
    case Obj(ms) =>
      forall i | 0 <= i < |ms| && Has(ms, ms[i].key) ensures Same(ms[i].value, Get(ms, ms[i].key)) {
        GetIsUnique(ms, i);
        SameReflexive(ms[i].value);
      }
  }

  /** The two members change places. */
  function Swapped(ms: seq<Member>, p: nat, q: nat): seq<Member>
    requires p < q < |ms|
  {
    ms[p := ms[q]][q := ms[p]]
  }

  lemma SwappedSame(ms: seq<Member>, p: nat, q: nat)
    requires WellFormed(Obj(ms)) && p < q < |ms|
    ensures WellFormed(Obj(Swapped(ms, p, q))) && Same(Obj(ms), Obj(Swapped(ms, p, q)))
  {
    var ns := Swapped(ms, p, q);
    forall i, j | 0 <= i < j < |ns| ensures KeysOf(ns)[i] != KeysOf(ns)[j] {
      var k, l := Other(i, p, q), Other(j, p, q);
      assert ns[i] == ms[k] && ns[j] == ms[l] && k != l;
      assert KeysOf(ms)[k] != KeysOf(ms)[l];
    }
    forall i | 0 <= i < |ns| ensures WellFormed(ns[i].value) && Has(ms, ns[i].key) {
      assert ns[i] == ms[Other(i, p, q)];
    }
    forall i | 0 <= i < |ms| ensures Has(ns, ms[i].key) && Same(ms[i].value, Get(ns, ms[i].key)) {
      assert ms[i] == ns[Other(i, p, q)];
      GetIsUnique(ns, Other(i, p, q));
      SameReflexive(ms[i].value);
    }
  }

  function Other(i: nat, p: nat, q: nat): nat {
    if i == p then q else if i == q then p else i
  }

  lemma PairOf(keys: seq<string>, p: nat, q: nat)
    requires Distinct(keys) && p < q < |keys|
    ensures Filter((key: string) => key == keys[p] || key == keys[q], keys) == [keys[p], keys[q]]
  {
    var keep := (key: string) => key == keys[p] || key == keys[q];
    var a, b, c := keys[..p], keys[p + 1..q], keys[q + 1..];
    var x, y := keys[p], keys[q];
    Apart(keys, p);
    Apart(keys, q);
    hide Distinct;
    CutTwice(keys, p, q);
    forall i | 0 <= i < |a| ensures !keep(a[i]) { assert a[i] == keys[i]; }
    forall i | 0 <= i < |b| ensures !keep(b[i]) { assert b[i] == keys[p + 1 + i]; }
    forall i | 0 <= i < |c| ensures !keep(c[i]) { assert c[i] == keys[q + 1 + i]; }
    PairOfParts(keep, a, x, b, y, c);
  }

  lemma Apart(keys: seq<string>, p: nat)
    requires Distinct(keys) && p < |keys|
    ensures forall i :: 0 <= i < |keys| && i != p ==> keys[i] != keys[p]
  {
  }

  lemma CutTwice(keys: seq<string>, p: nat, q: nat)
    requires p < q < |keys|
    ensures keys == keys[..p] + ([keys[p]] + (keys[p + 1..q] + ([keys[q]] + keys[q + 1..])))
  {
  }

  lemma PairOfParts(
      keep: string -> bool, a: seq<string>, x: string, b: seq<string>, y: string, c: seq<string>)
    requires keep(x) && keep(y)
    requires (forall i :: 0 <= i < |a| ==> !keep(a[i])) && (forall i :: 0 <= i < |b| ==> !keep(b[i]))
    requires forall i :: 0 <= i < |c| ==> !keep(c[i])
    ensures Filter(keep, a + ([x] + (b + ([y] + c)))) == [x, y]
  {
    FilterNone(keep, a);
    FilterNone(keep, b);
    FilterNone(keep, c);
    FilterSplit(keep, a, [x] + (b + ([y] + c)));
    FilterCons(keep, x, b + ([y] + c));
    FilterSplit(keep, b, [y] + c);
    FilterCons(keep, y, c);
    hide *;
    GluedTwo(x, y);
  }

  lemma GluedTwo(x: string, y: string)
    ensures [] + ([x] + ([] + ([y] + []))) == [x, y]
  {
  }

  lemma {:induction false} FilterSplit(keep: string -> bool, s: seq<string>, t: seq<string>)
    ensures Filter(keep, s + t) == Filter(keep, s) + Filter(keep, t)
  {
    if s == [] {
      assert s + t == t && Filter(keep, s) + Filter(keep, t) == Filter(keep, t);
    } else {
      assert s + t == [s[0]] + (s[1..] + t) && s == [s[0]] + s[1..];
      FilterCons(keep, s[0], s[1..] + t);
      FilterCons(keep, s[0], s[1..]);
      FilterSplit(keep, s[1..], t);
    }
  }

  lemma {:induction false} FilterNone(keep: string -> bool, s: seq<string>)
    requires forall i :: 0 <= i < |s| ==> !keep(s[i])
    ensures Filter(keep, s) == []
  {
    if s != [] { FilterNone(keep, s[1..]); }
  }

  lemma {:induction false} FilterTwice(keep: string -> bool, s: seq<string>)
    requires forall key :: keep(key) ==> Plain(key)
    ensures Filter(keep, Filter(Plain, s)) == Filter(keep, s)
  {
    if s != [] {
      FilterTwice(keep, s[1..]);
      FilterCons(keep, s[0], Filter(Plain, s[1..]));
      hide Plain;
    }
  }

  /** Of two tied plain keys the sorted object has first the one that was given first. */
  lemma TiedOrder(leq: (string, string) -> bool, ms: seq<Member>, p: nat, q: nat)
    requires TotalPreorder(leq) && Distinct(KeysOf(ms)) && p < q < |ms|
    requires Plain(ms[p].key) && Plain(ms[q].key) && leq(ms[p].key, ms[q].key)
    ensures Filter((key: string) => key == ms[p].key || key == ms[q].key, KeysOf(SortValue(leq, Obj(ms)).members))
         == [ms[p].key, ms[q].key]
  {
    var x, y := ms[p].key, ms[q].key;
    var keep := (key: string) => key == x || key == y;
    var keys, out := SortBy(leq, KeysOf(ms)), KeysOf(SortValue(leq, Obj(ms)).members);
    SortedKeysOk(leq, Obj(ms));
    PlainKeysOfFill(leq, Obj(ms), keys);
    hide Plain, SortValue;
    FilterTwice(keep, out);
    FilterTwice(keep, keys);
    SortByFilters(leq, keep, KeysOf(ms));
    assert KeysOf(ms)[p] == x && KeysOf(ms)[q] == y;
    PairOf(KeysOf(ms), p, q);
    TwoKeysSorted(leq, x, y);
  }

  lemma TwoKeysSorted(leq: (string, string) -> bool, x: string, y: string)
    requires leq(x, y)
    ensures SortBy(leq, [x, y]) == [x, y]
  {
    assert [x, y][1..] == [y] && [y][1..] == [];
    assert SortBy(leq, [y]) == [y];
    assert SortBy(leq, [x, y]) == Insert(leq, x, [y]);
  }

  /** So swapping two tied keys gives the same object and another sorted form. */
  lemma SwappedSortsDifferently(leq: (string, string) -> bool, ms: seq<Member>, p: nat, q: nat)
    requires TotalPreorder(leq) && WellFormed(Obj(ms)) && p < q < |ms|
    requires Plain(ms[p].key) && Plain(ms[q].key) && leq(ms[p].key, ms[q].key) && leq(ms[q].key, ms[p].key)
    ensures SortValue(leq, Obj(ms)) != SortValue(leq, Obj(Swapped(ms, p, q)))
  {
    var ns := Swapped(ms, p, q);
    SwappedSame(ms, p, q);
    assert KeysOf(ms)[p] != KeysOf(ms)[q];
    hide Plain, SortValue, Same;
    TiedOrder(leq, ms, p, q);
    TiedOrder(leq, ns, p, q);
    var x, y := ms[p].key, ms[q].key;
    assert ns[p].key == y && ns[q].key == x;
    SameFilter((key: string) => key == x || key == y, (key: string) => key == y || key == x,
               KeysOf(SortValue(leq, Obj(ns)).members));
    assert [x, y][0] != [y, x][0];
  }

  lemma {:induction false} SameFilter(keep: string -> bool, also: string -> bool, s: seq<string>)
    requires forall key :: keep(key) == also(key)
    ensures Filter(keep, s) == Filter(also, s)
  {
    if s != [] { SameFilter(keep, also, s[1..]); }
  }

  lemma ItemReplaced(leq: (string, string) -> bool, items: seq<Json>, i: nat, item: Json)
    requires WellFormed(Arr(items)) && i < |items| && WellFormed(item)
    requires Same(items[i], item) && SortValue(leq, items[i]) != SortValue(leq, item)
    ensures var b := Arr(items[i := item]);
      WellFormed(b) && Same(Arr(items), b) && SortValue(leq, Arr(items)) != SortValue(leq, b)
  {
    forall k | 0 <= k < |items| && k != i ensures Same(items[k], items[k]) { SameReflexive(items[k]); }
    assert SortValue(leq, Arr(items)).items[i] != SortValue(leq, Arr(items[i := item])).items[i];
  }

  lemma TiedKeysShow(leq: (string, string) -> bool, ms: seq<Member>) returns (b: Json)
    requires TotalPreorder(leq) && WellFormed(Obj(ms)) && !NoTie(leq, Filter(Plain, KeysOf(ms)))
    ensures WellFormed(b) && Same(Obj(ms), b) && SortValue(leq, Obj(ms)) != SortValue(leq, b)
  {
    hide SortValue, Same, Plain, WellFormed;
    var keys := Filter(Plain, KeysOf(ms));
    var x, y :| x in keys && y in keys && leq(x, y) && leq(y, x) && x != y;
    assert Has(ms, x) && Has(ms, y);
    var p, q := PlaceOf(ms, x), PlaceOf(ms, y);
    var first, last := if p < q then p else q, if p < q then q else p;
    SwappedSame(ms, first, last);
    SwappedSortsDifferently(leq, ms, first, last);
    b := Obj(Swapped(ms, first, last));
  }

  /** A tie anywhere in a tree shows: some tree equal up to key order sorts differently. */
  lemma {:induction false} TieShows(leq: (string, string) -> bool, a: Json) returns (b: Json)
    requires TotalPreorder(leq) && WellFormed(a) && !NoTies(leq, a)
    ensures WellFormed(b) && Same(a, b) && SortValue(leq, a) != SortValue(leq, b)
    decreases a
  {
    hide SortValue, Same, NoTie;
    match a
    case Arr(items) =>
      var i :| 0 <= i < |items| && !NoTies(leq, items[i]);
      var item := TieShows(leq, items[i]);
      ItemReplaced(leq, items, i, item);
      b := Arr(items[i := item]);
    case Obj(ms) =>
      if !NoTie(leq, Filter(Plain, KeysOf(ms))) {
        b := TiedKeysShow(leq, ms);
      } else {
        var i :| 0 <= i < |ms| && ms[i].key != PROTO && !NoTies(leq, ms[i].value);
        var value := TieShows(leq, ms[i].value);
        MemberReplaced(leq, ms, i, value);
        b := Obj(ms[i := Member(ms[i].key, value)]);
      }
  }

  /** A member's value replaced by an equal one that sorts differently. */
  lemma MemberReplaced(leq: (string, string) -> bool, ms: seq<Member>, i: nat, value: Json)
    requires TotalPreorder(leq) && WellFormed(Obj(ms)) && WellFormed(value) && i < |ms| && ms[i].key != PROTO
    requires Same(ms[i].value, value) && SortValue(leq, ms[i].value) != SortValue(leq, value)
    ensures var b := Obj(ms[i := Member(ms[i].key, value)]);
      WellFormed(b) && Same(Obj(ms), b) && SortValue(leq, Obj(ms)) != SortValue(leq, b)
  {
    ReplacedWellFormed(ms, i, value);
    ReplacedSame(ms, i, value);
    ReplacedSorts(leq, ms, i, value);
  }

  lemma ReplacedWellFormed(ms: seq<Member>, i: nat, value: Json)
    requires WellFormed(Obj(ms)) && WellFormed(value) && i < |ms|
    ensures WellFormed(Obj(ms[i := Member(ms[i].key, value)]))
  {
    assert KeysOf(ms[i := Member(ms[i].key, value)]) == KeysOf(ms);
  }

  lemma ReplacedSame(ms: seq<Member>, i: nat, value: Json)
    requires WellFormed(Obj(ms)) && WellFormed(value) && i < |ms| && Same(ms[i].value, value)
    ensures Same(Obj(ms), Obj(ms[i := Member(ms[i].key, value)]))
  {
    var ns := ms[i := Member(ms[i].key, value)];
    ReplacedWellFormed(ms, i, value);
    forall k | 0 <= k < |ms|
      ensures ns[k].key == ms[k].key && Has(ns, ms[k].key) && Has(ms, ms[k].key)
      ensures Same(ms[k].value, Get(ns, ms[k].key))
    {
      GetIsUnique(ns, k);
      GetIsUnique(ms, k);
      if k != i { SameReflexive(ms[k].value); }
    }
    hide Get, WellFormed;
    forall key ensures Has(ms, key) <==> Has(ns, key) {}
  }

  lemma ReplacedSorts(leq: (string, string) -> bool, ms: seq<Member>, i: nat, value: Json)
    requires TotalPreorder(leq) && WellFormed(Obj(ms)) && i < |ms| && ms[i].key != PROTO
    requires SortValue(leq, ms[i].value) != SortValue(leq, value)
    ensures SortValue(leq, Obj(ms)) != SortValue(leq, Obj(ms[i := Member(ms[i].key, value)]))
  {
    var key, ns := ms[i].key, ms[i := Member(ms[i].key, value)];
    var a, b := Obj(ms), Obj(ns);
    assert KeysOf(ns) == KeysOf(ms);
    var keys := SortBy(leq, KeysOf(ms));
    SortedKeysOk(leq, a);
    SortedKeysOk(leq, b);
    GetIsUnique(ms, i);
    GetIsUnique(ns, i);
    hide WellFormed;
    FillHas(leq, a, keys, key);
    FillHas(leq, b, keys, key);
    assert SortValue(leq, a) == Obj(Fill(leq, a, keys)) && SortValue(leq, b) == Obj(Fill(leq, b, keys));
    hide Fill, SortValue, Get, Has;
  }

  /** For each tree: all trees equal to it up to key order sort alike exactly when it has no ties. */
  lemma CanonicalExactly(leq: (string, string) -> bool, a: Json)
    requires TotalPreorder(leq) && WellFormed(a)
    ensures (forall b :: WellFormed(b) && Same(a, b) ==> SortValue(leq, a) == SortValue(leq, b)) <==> NoTies(leq, a)
  {
    if NoTies(leq, a) {
      forall b | WellFormed(b) && Same(a, b) ensures SortValue(leq, a) == SortValue(leq, b) {
        SameSortsEqual(leq, a, b);
      }
    } else {
      var b := TieShows(leq, a);
      assert WellFormed(b) && Same(a, b);
    }
  }

  ghost predicate PlainKeysNeverTie(leq: (string, string) -> bool) {
    forall x, y :: Plain(x) && Plain(y) && leq(x, y) && leq(y, x) ==> x == y
  }

  lemma {:induction false} NeverTied(leq: (string, string) -> bool, j: Json)
    requires PlainKeysNeverTie(leq)
    ensures NoTies(leq, j)
    decreases j
  {
    match j
    case Scalar(_) =>
    case Arr(items) =>
      forall i | 0 <= i < |items| ensures NoTies(leq, items[i]) { NeverTied(leq, items[i]); }
    case Obj(ms) =>
      forall i | 0 <= i < |ms| && ms[i].key != PROTO ensures NoTies(leq, ms[i].value) { NeverTied(leq, ms[i].value); }
      hide Plain;
  }

  /** For all trees: the sorted tree is a canonical form exactly when no two plain keys collate as equal. */
  lemma CanonicalIffNoPlainTies(leq: (string, string) -> bool)
    requires TotalPreorder(leq)
    ensures (forall a, b :: WellFormed(a) && WellFormed(b) && Same(a, b) ==> SortValue(leq, a) == SortValue(leq, b))
       <==> PlainKeysNeverTie(leq)
  {
    if PlainKeysNeverTie(leq) {
      forall a, b | WellFormed(a) && WellFormed(b) && Same(a, b) ensures SortValue(leq, a) == SortValue(leq, b) {
        NeverTied(leq, a);
        SameSortsEqual(leq, a, b);
      }
    } else {
      hide Plain, SortValue, Same;
      var x, y :| Plain(x) && Plain(y) && leq(x, y) && leq(y, x) && x != y;
      TiedKeysAreNotCanonical(leq, x, y);
    }
  }

  /** Two plain keys that collate as equal keep the order they were given in. */
  lemma TiedKeysAreNotCanonical(leq: (string, string) -> bool, x: string, y: string)
    requires TotalPreorder(leq) && x != y && leq(x, y) && leq(y, x) && Plain(x) && Plain(y)
    ensures var a := Obj([Member(x, Scalar("1")), Member(y, Scalar("2"))]);
      var b := Obj([Member(y, Scalar("2")), Member(x, Scalar("1"))]);
      WellFormed(a) && WellFormed(b) && Same(a, b) && SortValue(leq, a) != SortValue(leq, b)
  {
    var one, two := Member(x, Scalar("1")), Member(y, Scalar("2"));
    assert KeysOf([one, two]) == [x, y];
    assert WellFormed(Obj([one, two]));
    assert Swapped([one, two], 0, 1) == [two, one];
    hide Plain, SortValue, Same;
    SwappedSame([one, two], 0, 1);
    SwappedSortsDifferently(leq, [one, two], 0, 1);
  }

  // ---- Sorting again, and looking inside ----------------------------------

  /** The sorted tree is well formed, and equal to the original up to key order. */
  lemma {:induction false} SortKeepsTree(leq: (string, string) -> bool, j: Json)
    requires TotalPreorder(leq) && WellFormed(j)
    ensures WellFormed(SortValue(leq, j)) && Same(SortValue(leq, j), j)
    decreases j
  {
    match j
    case Scalar(_) =>
    case Arr(items) =>
      forall i | 0 <= i < |items|
        ensures WellFormed(SortValue(leq, items[i])) && Same(SortValue(leq, items[i]), items[i])
      {
        SortKeepsTree(leq, items[i]);
      }
    case Obj(ms) =>
      var keys := SortBy(leq, KeysOf(ms));
      SortedKeysOk(leq, j);
      FillDistinct(leq, j, keys);
      var out := Fill(leq, j, keys);
      forall key ensures Has(out, key) <==> Has(ms, key) && key != PROTO {
        FillHas(leq, j, keys, key);
      }
      forall i | 0 <= i < |out|
        ensures WellFormed(out[i].value) && Has(ms, out[i].key) && Same(out[i].value, Get(ms, out[i].key))
      {
        var key := out[i].key;
        GetIsUnique(out, i);
        FillHas(leq, j, keys, key);
        assert WellFormed(ms[PlaceOf(ms, key)].value);
        SortKeepsTree(leq, Get(ms, key));
      }
  }

  /** Sorting a sorted tree changes nothing, ties or not: the sort is stable. */
  lemma {:induction false} SortIsIdempotent(leq: (string, string) -> bool, j: Json)
    requires TotalPreorder(leq) && WellFormed(j)
    ensures SortValue(leq, SortValue(leq, j)) == SortValue(leq, j)
    decreases j
  {
    match j
    case Scalar(_) =>
    case Arr(items) =>
      forall i | 0 <= i < |items| ensures SortValue(leq, SortValue(leq, items[i])) == SortValue(leq, items[i]) {
        SortIsIdempotent(leq, items[i]);
      }
    case Obj(ms) =>
      var keys := SortBy(leq, KeysOf(ms));
      var sorted := SortValue(leq, j);
      var again := SortBy(leq, KeysOf(sorted.members));
      SortedKeysOk(leq, j);
      FillDistinct(leq, j, keys);
      SortedKeysOk(leq, sorted);
      PlainKeysAgain(leq, j);
      forall key ensures key in again <==> key in keys && key != PROTO {
        FillHas(leq, j, keys, key);
      }
      forall key | key in again && key in keys && key != PROTO
        ensures SortValue(leq, Get(sorted.members, key)) == SortValue(leq, Get(ms, key))
      {
        FillHas(leq, j, keys, key);
        assert WellFormed(ms[PlaceOf(ms, key)].value);
        SortIsIdempotent(leq, Get(ms, key));
      }
      FillsEqual(leq, sorted, again, j, keys);
  }

  /** Filling keeps the plain keys in their order. */
  lemma PlainKeysOfFill(leq: (string, string) -> bool, j: Json, keys: seq<string>)
    requires KeysOk(j, keys)
    ensures Filter(Plain, KeysOf(Fill(leq, j, keys))) == Filter(Plain, keys)
  {
    var ix := FillParts(leq, j, keys);
    hide Fill, IndexLike, DecimalValue, SortValue, Get, Has;
    var plain := Filter(Plain, keys);
    assert KeysOf(ix + PlainPart(leq, j, keys)) == KeysOf(ix) + plain;
    forall i | 0 <= i < |ix| ensures !Plain(KeysOf(ix)[i]) {
      assert ix[i] in ix;
    }
    forall i | 0 <= i < |plain| ensures Plain(plain[i]) {
      assert plain[i] in plain;
    }
    FilterParts(KeysOf(ix), plain);
  }

  /** Sorted again, the plain keys stay as they are. */
  lemma PlainKeysAgain(leq: (string, string) -> bool, j: Json)
    requires TotalPreorder(leq) && j.Obj? && Distinct(KeysOf(j.members))
    ensures var keys := SortBy(leq, KeysOf(j.members));
      Filter(Plain, SortBy(leq, KeysOf(SortValue(leq, j).members))) == Filter(Plain, keys)
  {
    var keys := SortBy(leq, KeysOf(j.members));
    SortedKeysOk(leq, j);
    PlainKeysOfFill(leq, j, keys);
    SortByFilters(leq, Plain, KeysOf(SortValue(leq, j).members));
    FilterSorted(leq, Plain, keys);
    SortBySortedKeeps(leq, Filter(Plain, keys));
  }

  lemma {:induction false} FilterParts(others: seq<string>, plain: seq<string>)
    requires (forall i :: 0 <= i < |others| ==> !Plain(others[i]))
    requires (forall i :: 0 <= i < |plain| ==> Plain(plain[i]))
    ensures Filter(Plain, others + plain) == plain
  {
    if others != [] {
      assert others + plain == [others[0]] + (others[1..] + plain);
      FilterCons(Plain, others[0], others[1..] + plain);
      FilterParts(others[1..], plain);
    } else if plain != [] {
      assert others + plain == [plain[0]] + plain[1..] && others + plain[1..] == plain[1..];
      FilterCons(Plain, plain[0], plain[1..]);
      FilterParts(others, plain[1..]);
    }
  }

  // ---- The order of the keys ----------------------------------------------

  function Decimal(n: nat): string {
    if n < 10 then ["0123456789"[n]] else Decimal(n / 10) + ["0123456789"[n % 10]]
  }

  lemma {:induction false} DecimalReadsBack(n: nat)
    ensures Decimal(n) != "" && (forall i :: 0 <= i < |Decimal(n)| ==> Digit(Decimal(n)[i]))
    ensures DecimalValue(Decimal(n)) == n && (n > 0 ==> Decimal(n)[0] != '0')
  {
    var d := "0123456789"[n % 10];
    assert DigitValue(d) == n % 10;
    if n < 10 {
      assert Decimal(n)[..0] == "" && DecimalValue("") == 0;
    } else {
      DecimalReadsBack(n / 10);
      assert Decimal(n)[..|Decimal(n)| - 1] == Decimal(n / 10);
    }
  }

  lemma NumeralIsIndexLike(n: nat)
    ensures IndexLike(Decimal(n)) <==> n < 4_294_967_295
  {
    DecimalReadsBack(n);
    assert n == 0 ==> Decimal(n) == "0";
  }

  /** The keys that come first are the usual numerals of the array indices. */
  lemma IndexLikeExactly(key: string)
    ensures IndexLike(key) <==> exists n: nat :: n < 4_294_967_295 && key == Decimal(n)
  {
    if IndexLike(key) {
      var n := DecimalValue(key);
      DecimalReadsBack(n);
      NumeralIsIndexLike(n);
      IndexValueUnique(key, Decimal(n));
    }
    forall n: nat | n < 4_294_967_295 ensures IndexLike(Decimal(n)) {
      NumeralIsIndexLike(n);
    }
  }

  /** A sorted object lists its indices by value, and then its other keys ascending. */
  lemma KeysAscend(leq: (string, string) -> bool, ms: seq<Member>)
    requires TotalPreorder(leq) && Distinct(KeysOf(ms))
    ensures SortValue(leq, Obj(ms)).Obj?
    ensures var out := SortValue(leq, Obj(ms)).members;
      forall i, j :: 0 <= i < j < |out| ==>
        && (IndexLike(out[j].key) ==> IndexLike(out[i].key) && DecimalValue(out[i].key) < DecimalValue(out[j].key))
        && (!IndexLike(out[i].key) ==> leq(out[i].key, out[j].key))
  {
    var tree, keys := Obj(ms), SortBy(leq, KeysOf(ms));
    SortedKeysOk(leq, tree);
    var ix := FillParts(leq, tree, keys);
    var plain := PlainPart(leq, tree, keys);
    PlainPartIsPlain(leq, tree, keys);
    FilterSorted(leq, Plain, keys);
    assert SortValue(leq, tree) == Obj(ix + plain);
    AscendingParts(leq, ix, plain);
  }

  lemma AscendingParts(leq: (string, string) -> bool, ix: seq<Member>, plain: seq<Member>)
    requires Rising(ix) && Sorted(leq, KeysOf(plain)) && forall i :: 0 <= i < |plain| ==> !IndexLike(plain[i].key)
    ensures var out := ix + plain;
      forall i, j :: 0 <= i < j < |out| ==>
        && (IndexLike(out[j].key) ==> IndexLike(out[i].key) && DecimalValue(out[i].key) < DecimalValue(out[j].key))
        && (!IndexLike(out[i].key) ==> leq(out[i].key, out[j].key))
  {
    var out, n := ix + plain, |ix|;
    hide IndexLike, DecimalValue;
    forall i, j | 0 <= i < j < |out| && !IndexLike(out[i].key) ensures leq(out[i].key, out[j].key) {
      assert i >= n;
      assert leq(KeysOf(plain)[i - n], KeysOf(plain)[j - n]);
    }
  }

  datatype Place = At(index: nat) | Under(key: string)

  /** The value found by following the path, if there is one. */
  function Find(j: Json, path: seq<Place>): Option<Json>
    decreases j, |path|
  {
    if path == [] then
      Some(j)
    else
      match (j, path[0])
      case (Arr(items), At(i)) => if i < |items| then Find(items[i], path[1..]) else None
      case (Obj(ms), Under(key)) => if Has(ms, key) then Find(ms[PlaceOf(ms, key)].value, path[1..]) else None
      case _ => None
  }

  /**
   * Every path leads to the sorted form of what it led to before, except that nothing is found under the
   * prototype key any more.
   */
  lemma {:induction false} SortKeepsPaths(leq: (string, string) -> bool, j: Json, path: seq<Place>)
    requires TotalPreorder(leq) && WellFormed(j)
    ensures Find(SortValue(leq, j), path) ==
      if Under(PROTO) in path then None
      else match Find(j, path) case None => None case Some(v) => Some(SortValue(leq, v))
    decreases path
  {
    if path != [] {
      assert path == [path[0]] + path[1..];
      match (j, path[0])
      case (Arr(items), At(i)) =>
        if i < |items| { SortKeepsPaths(leq, items[i], path[1..]); }
      case (Obj(ms), Under(key)) =>
        SortedKeysOk(leq, j);
        FillHas(leq, j, SortBy(leq, KeysOf(ms)), key);
        if Has(ms, key) {
          assert WellFormed(ms[PlaceOf(ms, key)].value);
          SortKeepsPaths(leq, Get(ms, key), path[1..]);
        }
      case _ =>
    }
  }

  /** What stood under the prototype key is lost. */
  lemma PrototypeMemberIsLost(leq: (string, string) -> bool)
    requires TotalPreorder(leq)
    ensures var j := Obj([Member(PROTO, Scalar("1"))]);
      && WellFormed(j) && Find(j, [Under(PROTO)]) == Some(Scalar("1"))
      && Find(SortValue(leq, j), [Under(PROTO)]) == None
  {
    var ms := [Member(PROTO, Scalar("1"))];
    assert ms[0].key == PROTO;
    assert WellFormed(Obj(ms));
    GetIsUnique(ms, 0);
    hide SortValue;
    SortKeepsPaths(leq, Obj(ms), [Under(PROTO)]);
  }
}
