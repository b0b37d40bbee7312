/** The activity catalog: an ordered list of named, coloured activities with
    add (validated append), edit (validated in-place rename/recolour) and the
    record removal half of delete. */
module ActivityCatalog {
  import opened Basics

  datatype Activity = Activity(id: Id, name: string, color: string)

  type Catalog = seq<Activity>

  // ---------------------------------------------------------------------------
  // Name trimming, as String.prototype.trim of ECMAScript

  /** ECMAScript WhiteSpace and LineTerminator code points. */
  predicate IsTrimmable(c: char)
  {
    || c == '\t' || c == '\n' || c == '\U{000B}' || c == '\U{000C}' || c == '\r'
    || c == ' ' || c == '\U{00A0}' || c == '\U{1680}' || ('\U{2000}' <= c <= '\U{200A}')
    || c == '\U{2028}' || c == '\U{2029}' || c == '\U{202F}' || c == '\U{205F}'
    || c == '\U{3000}' || c == '\U{FEFF}'
  }

  /** Drops the leading trimmable characters. */
  function TrimStart(s: string): (r: string)
    ensures |r| <= |s| && r == s[|s| - |r|..]
    ensures forall i :: 0 <= i < |s| - |r| ==> IsTrimmable(s[i])
    ensures r != [] ==> !IsTrimmable(r[0])
  {
    if s != [] && IsTrimmable(s[0]) then TrimStart(s[1..]) else s
  }

  /** Drops the trailing trimmable characters. */
  function TrimEnd(s: string): (r: string)
    ensures |r| <= |s| && r == s[..|r|]
    ensures forall i :: |r| <= i < |s| ==> IsTrimmable(s[i])
    ensures r != [] ==> !IsTrimmable(r[|r| - 1])
  {
    if s != [] && IsTrimmable(s[|s| - 1]) then TrimEnd(s[..|s| - 1]) else s
  }

  /** r is the slice of s starting at i, and everything of s outside that
      slice is trimmable. */
  predicate IsCoreOf(s: string, r: string, i: int)
  {
    && 0 <= i && i + |r| <= |s| && r == s[i..i + |r|]
    && (forall k :: 0 <= k < i ==> IsTrimmable(s[k]))
    && (forall k :: i + |r| <= k < |s| ==> IsTrimmable(s[k]))
  }

  /** The name with surrounding white space removed: a contiguous slice of the
      input whose ends are not white space, everything cut away being white space. */
  function Trim(s: string): (r: string)
    ensures r != [] ==> !IsTrimmable(r[0]) && !IsTrimmable(r[|r| - 1])
    ensures exists i :: IsCoreOf(s, r, i)
  {
    CoreOfTrimEnds(s);
    TrimEnd(TrimStart(s))
  }

  lemma CoreOfTrimEnds(s: string)
    ensures IsCoreOf(s, TrimEnd(TrimStart(s)), |s| - |TrimStart(s)|)
  {
    CoreOfParts(s, TrimStart(s), TrimEnd(TrimStart(s)));
  }

  /** A suffix of s cut after trimmable characters, then cut before trimmable
      characters, is a core of s. */
  lemma CoreOfParts(s: string, front: string, r: string)
    requires |front| <= |s| && front == s[|s| - |front|..]
    requires forall k :: 0 <= k < |s| - |front| ==> IsTrimmable(s[k])
    requires |r| <= |front| && r == front[..|r|]
    requires forall k :: |r| <= k < |front| ==> IsTrimmable(front[k])
    ensures IsCoreOf(s, r, |s| - |front|)
  {
    var i := |s| - |front|;
    SliceOfSlice(s, i, r);
    TrailOfSlice(s, i, |r|);
  }

  /** A prefix of the suffix s[i..] is a slice of s. */
  lemma SliceOfSlice(s: string, i: int, r: string)
    requires 0 <= i <= |s| && |r| <= |s| - i && r == s[i..][..|r|]
    ensures r == s[i..i + |r|]
  {
  }

  /** Trailing trimmable characters of the suffix s[i..] are trailing
      trimmable characters of s. */
  lemma TrailOfSlice(s: string, i: int, n: int)
    requires 0 <= i <= |s| && 0 <= n <= |s| - i
    requires forall k :: n <= k < |s[i..]| ==> IsTrimmable(s[i..][k])
    ensures forall k :: i + n <= k < |s| ==> IsTrimmable(s[k])
  {
    forall k | i + n <= k < |s| ensures IsTrimmable(s[k]) {
      assert s[k] == s[i..][k - i];
    }
  }

  /** Trimming a name without surrounding white space leaves it as it is. */
  lemma TrimTrimmed(s: string)
    requires IsTrimmed(s)
    ensures Trim(s) == s
  {
    assert TrimStart(s) == s;
    assert TrimEnd(s) == s;
  }

  /** Trimming twice is trimming once. */
  lemma TrimIdempotent(s: string)
    ensures Trim(Trim(s)) == Trim(s)
  {
    if Trim(s) != [] {
      TrimTrimmed(Trim(s));
    }
  }

  /** A name that is empty after trimming consists of white space only. */
  lemma TrimEmptyIffBlank(s: string)
    ensures Trim(s) == [] <==> forall k :: 0 <= k < |s| ==> IsTrimmable(s[k])
  {
    var t := Trim(s);
    var i :| IsCoreOf(s, t, i);
    if t != [] {
      assert !IsTrimmable(s[i]);
    }
  }

  // ---------------------------------------------------------------------------
  // Lookups

  predicate HasId(c: Catalog, id: Id)
  {
    exists i :: 0 <= i < |c| && c[i].id == id
  }

  predicate HasName(c: Catalog, name: string)
  {
    exists i :: 0 <= i < |c| && c[i].name == name
  }

  /** Some activity with an id other than `id` already carries `name`. */
  predicate NameTakenByOther(c: Catalog, name: string, id: Id)
  {
    exists i :: 0 <= i < |c| && c[i].name == name && c[i].id != id
  }

  /** Position j holds the first activity whose id is `id`. */
  predicate IsFirstWithId(c: Catalog, id: Id, j: int)
  {
    0 <= j < |c| && c[j].id == id && forall k :: 0 <= k < j ==> c[k].id != id
  }

  /** Position of the first activity with the given id, as a linear search finds it. */
  function FindIndex(c: Catalog, id: Id): (r: Option<nat>)
    ensures r.None? <==> !HasId(c, id)
    ensures r.Some? ==> IsFirstWithId(c, id, r.value)
  {
    if c == [] then None
    else if c[0].id == id then Some(0)
    else
      match FindIndex(c[1..], id)
      case None => None
      case Some(i) => Some(i + 1)
  }

  // ---------------------------------------------------------------------------
  // Catalog invariant

  predicate UniqueIds(c: Catalog)
  {
    forall i, j :: 0 <= i < j < |c| ==> c[i].id != c[j].id
  }

  predicate UniqueNames(c: Catalog)
  {
    forall i, j :: 0 <= i < j < |c| ==> c[i].name != c[j].name
  }

  /** A non-empty name that starts and ends with a non-white-space character. */
  predicate IsTrimmed(name: string)
  {
    name != [] && !IsTrimmable(name[0]) && !IsTrimmable(name[|name| - 1])
  }

  /** What add and edit maintain: distinct ids, distinct names, and every name
      non-empty and already trimmed. */
  predicate Valid(c: Catalog)
  {
    && UniqueIds(c)
    && UniqueNames(c)
    && forall i :: 0 <= i < |c| ==> IsTrimmed(c[i].name)
  }

  // ---------------------------------------------------------------------------
  // Operations

  /** Adds an activity named by the trimmed input. `freshId` is the id the
      caller generated for it; nothing here checks that it is unused. */
  function Add(c: Catalog, rawName: string, color: string, freshId: Id): (r: Result<Catalog>)
    ensures Trim(rawName) == [] ==> r == Err(EmptyName)
    ensures Trim(rawName) != [] && HasName(c, Trim(rawName)) ==> r == Err(DuplicateName)
    ensures r.Ok? <==> Trim(rawName) != [] && !HasName(c, Trim(rawName))
    ensures r.Ok? ==> |r.value| == |c| + 1 && r.value[..|c|] == c
    ensures r.Ok? ==> r.value[|c|] == Activity(freshId, Trim(rawName), color)
  {
    var name := Trim(rawName);
    if name == [] then Err(EmptyName)
    else if HasName(c, name) then Err(DuplicateName)
    else Ok(c + [Activity(freshId, name, color)])
  }

  /** Renames and recolours the first activity with id `id`. */
  function Edit(c: Catalog, id: Id, rawName: string, color: string): (r: Result<Catalog>)
    ensures !HasId(c, id) ==> r == Err(NotFound)
    ensures HasId(c, id) && Trim(rawName) == [] ==> r == Err(EmptyName)
    ensures HasId(c, id) && Trim(rawName) != [] && NameTakenByOther(c, Trim(rawName), id) ==>
              r == Err(DuplicateName)
    ensures r.Ok? <==> HasId(c, id) && Trim(rawName) != [] && !NameTakenByOther(c, Trim(rawName), id)
    ensures r.Ok? ==> |r.value| == |c|
    ensures r.Ok? ==> forall j :: 0 <= j < |c| ==>
                        r.value[j] == if IsFirstWithId(c, id, j) then Activity(id, Trim(rawName), color) else c[j]
  {
    match FindIndex(c, id)
    case None => Err(NotFound)
    case Some(i) =>
      var name := Trim(rawName);
      if name == [] then Err(EmptyName)
      else if NameTakenByOther(c, name, id) then Err(DuplicateName)
      else
        assert forall j :: 0 <= j < |c| && j != i ==> !IsFirstWithId(c, id, j);
        Ok(c[i := Activity(id, name, color)])
  }

  /** Keeps every activity whose id is not `id`, in the original order. */
  function Remove(c: Catalog, id: Id): (r: Catalog)
    ensures |r| <= |c|
    ensures forall j :: 0 <= j < |r| ==> r[j].id != id
  {
    if c == [] then []
    else (if c[0].id == id then [] else [c[0]]) + Remove(c[1..], id)
  }

  // ---------------------------------------------------------------------------
  // Properties

  /** With distinct ids, removing an id cuts exactly its one record out of the
      list and keeps the order of the rest. */
  lemma RemoveCutsOne(c: Catalog, id: Id, i: int)
    requires UniqueIds(c) && 0 <= i < |c| && c[i].id == id
    ensures Remove(c, id) == c[..i] + c[i + 1..]
  {
    RemoveOnly(c, id, i);
  }

  /** Removal of an id carried by position i only. */
  lemma {:induction false} RemoveOnly(c: Catalog, id: Id, i: int)
    requires 0 <= i < |c| && c[i].id == id
    requires forall j :: 0 <= j < |c| && j != i ==> c[j].id != id
    ensures Remove(c, id) == c[..i] + c[i + 1..]
  {
    var tail := c[1..];
    assert forall k :: 0 <= k < |tail| ==> tail[k] == c[k + 1];
    if i == 0 {
      RemoveAbsent(tail, id);
      assert c[..i] + c[i + 1..] == tail;
    } else {
      RemoveOnly(tail, id, i - 1);
      assert tail[..i - 1] + tail[i..] == c[1..i] + c[i + 1..];
      assert [c[0]] + c[1..i] == c[..i];
    }
  }

  /** The records left by a removal are exactly the records of the list whose
      id differs from the removed one. */
  lemma {:induction false} RemoveMembers(c: Catalog, id: Id)
    ensures forall a :: a in Remove(c, id) <==> a in c && a.id != id
  {
    if c != [] {
      RemoveMembers(c[1..], id);
      assert c == [c[0]] + c[1..];
    }
  }

  /** Removal works on each part of a list on its own: the kept records stay
      in their order, whether or not ids repeat. */
  lemma {:induction false} RemoveAppend(a: Catalog, b: Catalog, id: Id)
    ensures Remove(a + b, id) == Remove(a, id) + Remove(b, id)
  {
    if a == [] {
      assert a + b == b;
    } else {
      assert (a + b)[1..] == a[1..] + b;
      RemoveAppend(a[1..], b, id);
    }
  }

  /** Removing an id that no record carries leaves the catalog as it is. */
  lemma {:induction false} RemoveAbsent(c: Catalog, id: Id)
    requires !HasId(c, id)
    ensures Remove(c, id) == c
  {
    if c != [] {
      assert c[0].id != id;
      assert forall k :: 0 <= k < |c[1..]| ==> c[1..][k] == c[k + 1];
      RemoveAbsent(c[1..], id);
      assert [c[0]] + c[1..] == c;
    }
  }

  lemma AddKeepsValid(c: Catalog, rawName: string, color: string, freshId: Id)
    requires Valid(c) && !HasId(c, freshId)
    requires Add(c, rawName, color, freshId).Ok?
    ensures Valid(Add(c, rawName, color, freshId).value)
  {
    var r := Add(c, rawName, color, freshId).value;
    forall i, j | 0 <= i < j < |r| ensures r[i].id != r[j].id && r[i].name != r[j].name {
      if j == |c| {
        assert r[i] == c[i];
      }
    }
  }

  /** The add handler does not itself keep ids distinct: a generated id that is
      already in use is appended all the same. */
  lemma AddWithUsedIdDuplicates(c: Catalog, rawName: string, color: string, freshId: Id)
    requires HasId(c, freshId)
    requires Add(c, rawName, color, freshId).Ok?
    ensures !UniqueIds(Add(c, rawName, color, freshId).value)
  {
    var r := Add(c, rawName, color, freshId).value;
    var i :| 0 <= i < |c| && c[i].id == freshId;
    assert r[i] == c[i] && r[|c|].id == freshId;
  }

  /** Replacing one record by one with the same id and a fresh trimmed name
      keeps a catalog valid. */
  lemma ValidUpdate(c: Catalog, p: int, a: Activity)
    requires Valid(c) && 0 <= p < |c| && a.id == c[p].id && IsTrimmed(a.name)
    requires forall j :: 0 <= j < |c| && j != p ==> c[j].name != a.name
    ensures Valid(c[p := a])
  {
    var r := c[p := a];
    assert forall k :: 0 <= k < |c| ==> r[k].id == c[k].id;
    assert forall k :: 0 <= k < |c| && k != p ==> r[k] == c[k];
  }

  lemma EditKeepsValid(c: Catalog, id: Id, rawName: string, color: string)
    requires Valid(c)
    requires Edit(c, id, rawName, color).Ok?
    ensures Valid(Edit(c, id, rawName, color).value)
  {
    var name := Trim(rawName);
    var p := FindIndex(c, id).value;
    var a := Activity(id, name, color);
    assert Edit(c, id, rawName, color).value == c[p := a];
    assert !NameTakenByOther(c, name, id);
    forall j | 0 <= j < |c| && j != p ensures c[j].name != name {
      assert c[j].id != id;
    }
    ValidUpdate(c, p, a);
  }

  /** Dropping one record keeps a catalog valid. */
  lemma ValidDropOne(c: Catalog, i: int)
    requires Valid(c) && 0 <= i < |c|
    ensures Valid(c[..i] + c[i + 1..])
  {
    var r := c[..i] + c[i + 1..];
    assert forall j :: 0 <= j < |r| ==> r[j] == if j < i then c[j] else c[j + 1];
  }

  lemma RemoveKeepsValid(c: Catalog, id: Id)
    requires Valid(c)
    ensures Valid(Remove(c, id))
  {
    if HasId(c, id) {
      var i :| 0 <= i < |c| && c[i].id == id;
      RemoveCutsOne(c, id, i);
      ValidDropOne(c, i);
    } else {
      RemoveAbsent(c, id);
    }
  }
}
