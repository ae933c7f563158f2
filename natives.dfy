/** The registry of native functions: a table of (name, function) entries
    kept sorted by `strcmp` on the names, filled by linear-scan insertion and
    searched by binary search. */
module Natives {

  datatype Option<T> = None | Some(value: T)

  /** A native function: NULL, the module's own `native_stub`, or
      some other function, told apart by an identity. */
  datatype Func = Null | NativeStub | Fn(id: nat)

  /** An AMX_NATIVE_INFO entry. */
  datatype NativeInfo = NativeInfo(name: seq<char>, func: Func)

  // ---------------------------------------------------------------------
  // strcmp

  /** A C string: its characters, none of which is the terminator. */
  predicate CString(s: seq<char>) {
    forall i :: 0 <= i < |s| ==> s[i] != '\0'
  }

  /** The character `strcmp` reads at the front of `s`: the terminator once
      the characters run out. */
  function Head(s: seq<char>): (c: char)
    ensures c != '\0' ==> |s| > 0 && c == s[0]
  {
    if |s| == 0 then '\0' else s[0]
  }

  /** `strcmp`: the difference of the first characters that differ, or 0 when
      both strings end together. Only its sign is used by the registry. */
  function Strcmp(a: seq<char>, b: seq<char>): int
    decreases |a|
  {
    var x, y := Head(a), Head(b);
    if x != y then x as int - y as int
    else if x == '\0' then 0
    else Strcmp(a[1..], b[1..])
  }

  /** On C strings, `strcmp` reports 0 exactly for equal strings. */
  lemma {:induction false} StrcmpZeroIff(a: seq<char>, b: seq<char>)
    requires CString(a) && CString(b)
    ensures Strcmp(a, b) == 0 <==> a == b
    decreases |a|
  {
    if |a| > 0 && |b| > 0 && a[0] == b[0] {
      assert CString(a[1..]) && CString(b[1..]) by {
        forall i | 0 <= i < |a| - 1 ensures a[1..][i] != '\0' { assert a[1..][i] == a[i + 1]; }
        forall i | 0 <= i < |b| - 1 ensures b[1..][i] != '\0' { assert b[1..][i] == b[i + 1]; }
      }
      StrcmpZeroIff(a[1..], b[1..]);
      assert a == [a[0]] + a[1..] && b == [b[0]] + b[1..];
    } else if |a| > 0 && |b| > 0 {
      assert a[0] != '\0' && b[0] != '\0';
    } else if |a| > 0 {
      assert a[0] != '\0';
    } else if |b| > 0 {
      assert b[0] != '\0';
    }
  }

  /** Swapping the operands flips the sign of the result. */
  lemma {:induction false} StrcmpAntisymmetric(a: seq<char>, b: seq<char>)
    ensures Strcmp(b, a) == -Strcmp(a, b)
    decreases |a|
  {
    if Head(a) == Head(b) && Head(a) != '\0' {
      StrcmpAntisymmetric(a[1..], b[1..]);
    }
  }

  /** The order `strcmp(a, b) <= 0` is transitive. */
  lemma {:induction false} StrcmpTransitive(a: seq<char>, b: seq<char>, c: seq<char>)
    requires Strcmp(a, b) <= 0 && Strcmp(b, c) <= 0
    ensures Strcmp(a, c) <= 0
    ensures Strcmp(a, b) < 0 || Strcmp(b, c) < 0 ==> Strcmp(a, c) < 0
    decreases |a|
  {
    if Head(a) == Head(b) && Head(b) == Head(c) && Head(a) != '\0' {
      StrcmpTransitive(a[1..], b[1..], c[1..]);
    }
  }

  // ---------------------------------------------------------------------
  // The sorted table and insertion

  /** Every name is no greater, by `strcmp`, than the names after it. */
  ghost predicate Sorted(t: seq<NativeInfo>) {
    forall i, j :: 0 <= i < j < |t| ==> Strcmp(t[i].name, t[j].name) <= 0
  }

  /** Every name in the table is a C string. */
  ghost predicate Names(t: seq<NativeInfo>) {
    forall i :: 0 <= i < |t| ==> CString(t[i].name)
  }

  /** The first index whose name compares greater than or equal to `name`,
      or the table's length when there is none. */
  function InsertionPoint(t: seq<NativeInfo>, name: seq<char>): (i: nat)
    ensures i <= |t|
    ensures forall k :: 0 <= k < i ==> Strcmp(t[k].name, name) < 0
    ensures i < |t| ==> Strcmp(t[i].name, name) >= 0
  {
    if |t| == 0 then 0
    else if Strcmp(t[0].name, name) >= 0 then 0
    else 1 + InsertionPoint(t[1..], name)
  }

  /** The table after `e` is registered. */
  function Insert(t: seq<NativeInfo>, e: NativeInfo): seq<NativeInfo> {
    var i := InsertionPoint(t, e.name);
    t[..i] + [e] + t[i..]
  }

  /** Registration adds exactly `e`, and the other entries keep their order. */
  lemma InsertAddsOne(t: seq<NativeInfo>, e: NativeInfo)
    ensures var r, i := Insert(t, e), InsertionPoint(t, e.name);
      && |r| == |t| + 1 && r[i] == e
      && r[..i] + r[i + 1..] == t
      && multiset(r) == multiset(t) + multiset{e}
  {
    var r, i := Insert(t, e), InsertionPoint(t, e.name);
    assert r[..i] == t[..i];
    assert r[i + 1..] == t[i..];
    assert t == t[..i] + t[i..];
  }

  /** An entry whose name equals the new one ends up after it: everything
      before the insertion point compares strictly less. */
  lemma DuplicateGoesFirst(t: seq<NativeInfo>, e: NativeInfo, k: nat)
    requires k < |t| && Strcmp(t[k].name, e.name) == 0
    ensures var r := Insert(t, e); exists j :: InsertionPoint(t, e.name) < j < |r| && r[j] == t[k]
  {
    var r, i := Insert(t, e), InsertionPoint(t, e.name);
    assert k >= i;
    assert r[k + 1] == t[k];
  }

  /** Insertion keeps the table sorted. */
  lemma InsertKeepsSorted(t: seq<NativeInfo>, e: NativeInfo)
    requires Sorted(t)
    ensures Sorted(Insert(t, e))
  {
    var r, i := Insert(t, e), InsertionPoint(t, e.name);
    forall a, b | 0 <= a < b < |r| ensures Strcmp(r[a].name, r[b].name) <= 0 {
      if b == i {
        assert r[a] == t[a];
      } else if a == i {
        assert r[b] == t[b - 1];
        StrcmpAntisymmetric(t[i].name, e.name);
        if b - 1 > i {
          StrcmpTransitive(e.name, t[i].name, t[b - 1].name);
        }
      } else {
        assert r[a] == t[if a < i then a else a - 1];
        assert r[b] == t[if b < i then b else b - 1];
      }
    }
  }

  lemma InsertKeepsNames(t: seq<NativeInfo>, e: NativeInfo)
    requires Names(t) && CString(e.name)
    ensures Names(Insert(t, e))
  {
    var r, i := Insert(t, e), InsertionPoint(t, e.name);
    forall k | 0 <= k < |r| ensures CString(r[k].name) {
      if k != i {
        assert r[k] == t[if k < i then k else k - 1];
      }
    }
  }

  // ---------------------------------------------------------------------
  // bsearch

  /** The C library's `bsearch` with `compare` (the key's `strcmp` against
      each entry's name), in its usual halving form. */
  method BinarySearch(t: seq<NativeInfo>, key: seq<char>) returns (r: Option<nat>)
    requires Sorted(t)
    ensures r.Some? ==> r.value < |t| && Strcmp(key, t[r.value].name) == 0
    ensures r.None? ==> forall k :: 0 <= k < |t| ==> Strcmp(key, t[k].name) != 0
  {
    var lo, hi := 0, |t|;
    while lo < hi
      invariant 0 <= lo <= hi <= |t|
      invariant forall k :: 0 <= k < lo ==> Strcmp(key, t[k].name) > 0
      invariant forall k :: hi <= k < |t| ==> Strcmp(key, t[k].name) < 0
    {
      var mid := (lo + hi) / 2;
      var cmp := Strcmp(key, t[mid].name);
      if cmp < 0 {
        forall k | mid <= k < |t| ensures Strcmp(key, t[k].name) < 0 {
          if k > mid {
            StrcmpTransitive(key, t[mid].name, t[k].name);
          }
        }
        hi := mid;
      } else if cmp > 0 {
        forall k | 0 <= k <= mid ensures Strcmp(key, t[k].name) > 0 {
          if k < mid {
            StrcmpAntisymmetric(key, t[mid].name);
            StrcmpTransitive(t[k].name, t[mid].name, key);
            StrcmpAntisymmetric(t[k].name, key);
          }
        }
        lo := mid + 1;
      } else {
        return Some(mid);
      }
    }
    return None;
  }

  // ---------------------------------------------------------------------
  // The registry

  /** The module's `natives` array: its entries, and whether the module
      initialiser allocated it (`natives.data != NULL`). */
  class Registry {
    var table: seq<NativeInfo>
    var initialised: bool

    /** The registry holds a sorted table of C-string names. */
    ghost predicate Valid()
      reads this
    {
      Sorted(table) && Names(table)
    }

    /** Some entry named `name` holds the function `f`. */
    ghost predicate Entry(name: seq<char>, f: Func)
      reads this
    {
      exists k :: 0 <= k < |table| && table[k].name == name && table[k].func == f
    }

    /** No entry is named `name`. */
    ghost predicate Absent(name: seq<char>)
      reads this
    {
      forall k :: 0 <= k < |table| ==> table[k].name != name
    }

    /** The empty registry, after the module initialiser ran (`initialised`)
        or before it did. */
    constructor (initialised: bool)
      ensures this.initialised == initialised && table == [] && Valid()
    {
      this.initialised := initialised;
      table := [];
    }

    /** `sampgdk_native_register`: scans for the first entry whose name
        compares greater than or equal to `name` and inserts the new entry
        there, or appends it when there is none. */
    method Register(name: seq<char>, func: Func)
      requires Valid() && CString(name)
      modifies this
      ensures table == Insert(old(table), NativeInfo(name, func))
      ensures initialised == old(initialised)
      ensures Valid()
    {
      var info := NativeInfo(name, func);
      InsertKeepsSorted(table, info);
      InsertKeepsNames(table, info);
      var index := 0;
      while index < |table|
        invariant index <= |table|
        invariant forall k :: 0 <= k < index ==> Strcmp(table[k].name, name) < 0
        invariant table == old(table)
      {
        if Strcmp(table[index].name, name) >= 0 {
          InsertionPointAt(table, name, index);
          table := table[..index] + [info] + table[index..];
          return;
        }
        index := index + 1;
      }
      InsertionPointAt(table, name, index);
      table := table + [info];
    }

    /** `sampgdk_native_find`: NULL when the module was never initialised;
        otherwise the function of an entry named `name`, or NULL when there
        is none. */
    method Find(name: seq<char>) returns (f: Func)
      requires Valid() && CString(name)
      ensures !initialised ==> f == Null
      ensures initialised ==> Entry(name, f) || (f == Null && Absent(name))
    {
      if !initialised {
        return Null;
      }
      var r := BinarySearch(table, name);
      if r.None? {
        forall k | 0 <= k < |table| ensures table[k].name != name {
          StrcmpZeroIff(name, table[k].name);
        }
        return Null;
      }
      StrcmpZeroIff(name, table[r.value].name);
      return table[r.value].func;
    }

    /** `sampgdk_native_find_warn`: `Find`, with a warning logged when the
        result is NULL. */
    method FindWarn(name: seq<char>) returns (f: Func)
      requires Valid() && CString(name)
      ensures !initialised ==> f == Null
      ensures initialised ==> Entry(name, f) || (f == Null && Absent(name))
    {
      f := Find(name);
    }

    /** `sampgdk_native_find_stub`: `Find`, with NULL replaced by the stub. */
    method FindStub(name: seq<char>) returns (f: Func)
      requires Valid() && CString(name)
      ensures f != Null
      ensures (initialised && Entry(name, f))
        || (f == NativeStub && (!initialised || Absent(name) || Entry(name, Null)))
    {
      f := Find(name);
      if f == Null {
        f := NativeStub;
      }
    }

    /** `sampgdk_native_find_warn_stub`: `FindWarn`, with NULL replaced by
        the stub. */
    method FindWarnStub(name: seq<char>) returns (f: Func)
      requires Valid() && CString(name)
      ensures f != Null
      ensures (initialised && Entry(name, f))
        || (f == NativeStub && (!initialised || Absent(name) || Entry(name, Null)))
    {
      f := FindWarn(name);
      if f == Null {
        f := NativeStub;
      }
    }

    /** `sampgdk_native_get_table`: the number of entries and the entries
        themselves (None for the NULL `data` of an uninitialised
        module), in sorted order. */
    method GetTable() returns (number: nat, data: Option<seq<NativeInfo>>)
      requires Valid()
      ensures number == |table|
      ensures initialised <==> data.Some?
      ensures data.Some? ==> data.value == table && Sorted(data.value)
    {
      number := |table|;
      data := if initialised then Some(table) else None;
    }
  }

  /** The scan of `Register` stops where `InsertionPoint` says. */
  lemma InsertionPointAt(t: seq<NativeInfo>, name: seq<char>, index: nat)
    requires index <= |t|
    requires forall k :: 0 <= k < index ==> Strcmp(t[k].name, name) < 0
    requires index < |t| ==> Strcmp(t[index].name, name) >= 0
    ensures InsertionPoint(t, name) == index
  {
  }
}
