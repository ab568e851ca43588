/** JSON settings trees: dotted paths, reading and writing at a path, and the laws that tie
    the two. Absent (`undefined`) is None. */
module SettingsTree {
  import opened Results

  datatype Json =
    | Null
    | Bool(flag: bool)
    | Num(number: real)
    | Str(text: string)
    | Arr(items: seq<Json>)
    | Obj(fields: map<string, Json>)

  type Fields = map<string, Json>

  // ---- dotted paths --------------------------------------------------------------------

  /** `path.split('.')`: never empty. */
  function Split(path: string): (parts: seq<string>)
    ensures parts != []
  {
    if path == [] then [""]
    else if path[0] == '.' then [""] + Split(path[1..])
    else var rest := Split(path[1..]); [[path[0]] + rest[0]] + rest[1..]
  }

  /** `parts.join('.')`. */
  function Join(parts: seq<string>): string
    requires parts != []
  {
    if |parts| == 1 then parts[0] else parts[0] + "." + Join(parts[1..])
  }

  lemma {:induction false} JoinSplit(path: string)
    ensures Join(Split(path)) == path
  {
    if path != [] {
      JoinSplit(path[1..]);
      var rest := Split(path[1..]);
      if path[0] == '.' {
        assert ([""] + rest)[1..] == rest;
        assert Join(Split(path)) == "" + "." + Join(rest);
      } else {
        assert ([[path[0]] + rest[0]] + rest[1..])[1..] == rest[1..];
        assert Join(Split(path)) == [path[0]] + Join(rest);
      }
    }
  }

  lemma SplitCons(s: string)
    requires s != []
    ensures Split(s) == if s[0] == '.' then [""] + Split(s[1..])
                        else [[s[0]] + Split(s[1..])[0]] + Split(s[1..])[1..]
  {
  }

  /** Splitting a dotted concatenation splits both sides. */
  lemma {:induction false} SplitDot(a: string, b: string)
    ensures Split(a + "." + b) == Split(a) + Split(b)
  {
    var joined := a + "." + b;
    if a == [] {
      assert joined == "." + b && joined[1..] == b;
    } else {
      assert joined[0] == a[0] && joined[1..] == a[1..] + "." + b;
      SplitDot(a[1..], b);
      SplitCons(joined);
      SplitCons(a);
    }
  }

  lemma {:induction false} SplitParts(path: string)
    ensures forall i :: 0 <= i < |Split(path)| ==> Split(Split(path)[i]) == [Split(path)[i]]
    ensures |Split(path)| == 1 ==> Split(path) == [path]
  {
    if path == [] {
      assert path == "" && Split("") == [""];
    } else {
      SplitParts(path[1..]);
      var rest := Split(path[1..]);
      if path[0] != '.' {
        var first := [path[0]] + rest[0];
        assert first[1..] == rest[0];
        assert [path[0]] + path[1..] == path;
        assert Split(first) == [[first[0]] + Split(rest[0])[0]] + Split(rest[0])[1..] == [first];
        forall i | 0 <= i < |Split(path)| ensures Split(Split(path)[i]) == [Split(path)[i]] {
          if i > 0 { assert Split(path)[i] == rest[i]; }
        }
      } else {
        forall i | 0 <= i < |Split(path)| ensures Split(Split(path)[i]) == [Split(path)[i]] {
          if i > 0 { assert Split(path)[i] == rest[i - 1]; }
        }
      }
    }
  }

  lemma {:induction false} SplitJoin(parts: seq<string>)
    requires parts != [] && forall i :: 0 <= i < |parts| ==> Split(parts[i]) == [parts[i]]
    ensures Split(Join(parts)) == parts
  {
    if |parts| > 1 {
      SplitJoin(parts[1..]);
      SplitDot(parts[0], Join(parts[1..]));
    }
  }

  lemma SplitTail(path: string)
    requires |Split(path)| > 1
    ensures Split(Join(Split(path)[1..])) == Split(path)[1..]
    ensures |Join(Split(path)[1..])| < |path|
  {
    SplitParts(path);
    SplitJoin(Split(path)[1..]);
    JoinSplit(path);
  }

  // ---- reading and writing -------------------------------------------------------------

  function Child(cur: Option<Json>, part: string): Option<Json> {
    if cur.Some? && cur.value.Obj? && part in cur.value.fields then Some(cur.value.fields[part]) else None
  }

  function GetPath(cur: Option<Json>, parts: seq<string>): Option<Json>
    decreases parts
  {
    if parts == [] then cur
    else if cur.Some? && cur.value.Obj? then GetPath(Child(cur, parts[0]), parts[1..])
    else None
  }

  function GetNested(obj: Option<Json>, path: string): Option<Json> {
    if path == [] then None else GetPath(obj, Split(path))
  }

  method GetNestedValue(obj: Option<Json>, path: string) returns (value: Option<Json>)
    ensures value == GetNested(obj, path)
  {
    if path == [] { return None; }
    var parts := Split(path);
    var cur := obj;
    for i := 0 to |parts|
      invariant GetPath(cur, parts[i..]) == GetPath(obj, parts)
    {
      assert parts[i..][1..] == parts[i + 1..];
      if cur.None? || !cur.value.Obj? { return None; }
      cur := Child(cur, parts[i]);
    }
    return cur;
  }

  function ChildFields(obj: Fields, head: string): Fields {
    if head in obj && obj[head].Obj? then obj[head].fields else map[]
  }

  /** Copies along the path; whatever is not an object on the way is replaced by one. */
  function SetNestedValue(obj: Fields, path: string, value: Json): Fields
    decreases |path|
  {
    var parts := Split(path);
    if |parts| == 1 then obj[path := value]
    else
      SplitTail(path);
      obj[parts[0] := Obj(SetNestedValue(ChildFields(obj, parts[0]), Join(parts[1..]), value))]
  }

  /** The same write on the segments of the path. */
  function SetPath(obj: Fields, parts: seq<string>, value: Json): Fields
    requires parts != []
    decreases parts
  {
    if |parts| == 1 then obj[parts[0] := value]
    else obj[parts[0] := Obj(SetPath(ChildFields(obj, parts[0]), parts[1..], value))]
  }

  lemma {:induction false} SetNestedIsSetPath(obj: Fields, path: string, value: Json)
    ensures SetNestedValue(obj, path, value) == SetPath(obj, Split(path), value)
    decreases |path|
  {
    var parts := Split(path);
    SplitParts(path);
    if |parts| > 1 {
      SplitTail(path);
      SetNestedIsSetPath(ChildFields(obj, parts[0]), Join(parts[1..]), value);
    }
  }

  // ---- lens laws -----------------------------------------------------------------------

  lemma {:induction false} GetOfSet(obj: Fields, parts: seq<string>, value: Json)
    requires parts != []
    ensures GetPath(Some(Obj(SetPath(obj, parts, value))), parts) == Some(value)
    decreases parts
  {
    if |parts| > 1 {
      GetOfSet(ChildFields(obj, parts[0]), parts[1..], value);
    } else {
      assert parts[1..] == [];
    }
  }

  lemma {:induction false} SetOfSet(obj: Fields, parts: seq<string>, v: Json, w: Json)
    requires parts != []
    ensures SetPath(SetPath(obj, parts, v), parts, w) == SetPath(obj, parts, w)
    decreases parts
  {
    if |parts| > 1 { SetOfSet(ChildFields(obj, parts[0]), parts[1..], v, w); }
  }

  lemma {:induction false} SetOfGet(obj: Fields, parts: seq<string>, value: Json)
    requires parts != [] && GetPath(Some(Obj(obj)), parts) == Some(value)
    ensures SetPath(obj, parts, value) == obj
    decreases parts
  {
    var child := Child(Some(Obj(obj)), parts[0]);
    if |parts| > 1 {
      assert child.Some? && child.value.Obj?;
      SetOfGet(child.value.fields, parts[1..], value);
    } else {
      assert parts[1..] == [];
    }
  }

  predicate Comparable(p: seq<string>, q: seq<string>) { p <= q || q <= p }

  lemma ComparableTail(p: seq<string>, q: seq<string>)
    requires p != [] && q != [] && p[0] == q[0]
    ensures Comparable(p, q) <==> Comparable(p[1..], q[1..])
  {
    assert p == [p[0]] + p[1..] && q == [q[0]] + q[1..];
  }

  lemma {:induction false} GetFromNothing(cur: Option<Json>, parts: seq<string>)
    requires parts != [] && (cur.None? || !cur.value.Obj? || cur.value.fields == map[])
    ensures GetPath(cur, parts) == None
    decreases parts
  {
    if |parts| > 1 && cur.Some? && cur.value.Obj? { GetFromNothing(None, parts[1..]); }
  }

  /** A write is invisible at every path that neither leads to it nor lies below it, even
      where it replaces a scalar or an array on its way. */
  lemma {:induction false} GetElsewhere(obj: Fields, parts: seq<string>, value: Json, other: seq<string>)
    requires parts != [] && !Comparable(parts, other)
    ensures GetPath(Some(Obj(SetPath(obj, parts, value))), other) == GetPath(Some(Obj(obj)), other)
    decreases parts
  {
    if parts[0] == other[0] {
      ComparableTail(parts, other);
      var child := ChildFields(obj, parts[0]);
      if |parts| > 1 {
        GetElsewhere(child, parts[1..], value, other[1..]);
        if child == map[] {
          GetFromNothing(Some(Obj(child)), other[1..]);
          if !(parts[0] in obj && obj[parts[0]].Obj?) { GetFromNothing(Child(Some(Obj(obj)), parts[0]), other[1..]); }
        }
      }
    }
  }

  /** Reading what was written works for exactly the non-empty paths: the empty path writes
      the key "" but is never looked up. */
  lemma NestedGetOfSet(obj: Fields, path: string, value: Json)
    ensures GetNested(Some(Obj(SetNestedValue(obj, path, value))), path) == Some(value) <==> path != ""
  {
    SetNestedIsSetPath(obj, path, value);
    GetOfSet(obj, Split(path), value);
  }
}
