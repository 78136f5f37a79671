/** Merging configuration trees: objects merge key by key, arrays are appended, an argv array and
    everything else is replaced by the later layer.
 */
module ConfigMerge {

  datatype Value =
    | Null
    | Bool(b: bool)
    | Number(n: int)
    | String(s: string)
    | Array(items: seq<Value>)
    | Object(fields: map<string, Value>)

  const EMPTY: Value := Object(map[])

  /** `extension-hosts.<name>.command` is an argv. */
  predicate IsPositionalArray(path: seq<string>) {
    |path| == 3 && path[0] == "extension-hosts" && path[2] == "command"
  }

  function Merge(target: Value, source: Value, path: seq<string>): Value
    decreases source
  {
    if target.Object? && source.Object? then
      Object(map k | k in target.fields.Keys + source.fields.Keys ::
               if k !in source.fields then target.fields[k]
               else if k !in target.fields then source.fields[k]
               else Merge(target.fields[k], source.fields[k], path + [k]))
    else if target.Array? && source.Array? && !IsPositionalArray(path) then
      Array(target.items + source.items)
    else
      source
  }

  /** `merge_value_into`: the target tree and the path stack are updated step by step; the stack
      comes back as it was.
   */
  method MergeValueInto(target: Value, source: Value, path: seq<string>) returns (merged: Value, path': seq<string>)
    ensures merged == Merge(target, source, path) && path' == path
    decreases source, 1
  {
    if target.Object? && source.Object? {
      merged, path' := MergeFields(target, source, path);
    } else if target.Array? && source.Array? && IsPositionalArray(path) {
      merged, path' := source, path;
    } else if target.Array? && source.Array? {
      merged, path' := Array(target.items + source.items), path;
    } else {
      merged, path' := source, path;
    }
  }

  /** The loop over the keys of an object. */
  method MergeFields(target: Value, source: Value, path: seq<string>) returns (merged: Value, path': seq<string>)
    requires target.Object? && source.Object?
    ensures merged == Merge(target, source, path) && path' == path
    decreases source, 0
  {
    path' := path;
    var t, rest := target.fields, source.fields.Keys;
    while rest != {}
      invariant path' == path && Progress(target, source, path, t, rest)
      decreases |rest|
    {
      var k :| k in rest;
      var v := source.fields[k];
      if k in t {
        path' := path' + [k];
        v, path' := MergeValueInto(t[k], v, path');
        path' := path'[..|path'| - 1];
      }
      ProgressStep(target, source, path, t, rest, k, v);
      t, rest := t[k := v], rest - {k};
    }
    ProgressDone(target, source, path, t);
    merged := Object(t);
  }

  /** The target's fields when the source's keys in `rest` still wait for their turn. */
  ghost predicate Progress(target: Value, source: Value, path: seq<string>, t: map<string, Value>, rest: set<string>)
    requires target.Object? && source.Object?
  {
    && rest <= source.fields.Keys
    && t.Keys == target.fields.Keys + (source.fields.Keys - rest)
    && forall k :: k in t ==> t[k] == FieldAt(target, source, path, k, k in rest)
  }

  function FieldAt(target: Value, source: Value, path: seq<string>, k: string, waiting: bool): Value
    requires target.Object? && source.Object?
    requires k in target.fields || k in source.fields
  {
    if k in target.fields && (k !in source.fields || waiting) then target.fields[k]
    else if k !in target.fields then source.fields[k]
    else Merge(target.fields[k], source.fields[k], path + [k])
  }

  lemma ProgressDone(target: Value, source: Value, path: seq<string>, t: map<string, Value>)
    requires target.Object? && source.Object? && Progress(target, source, path, t, {})
    ensures Object(t) == Merge(target, source, path)
  {
    assert t == Merge(target, source, path).fields;
  }

  lemma ProgressStep(target: Value, source: Value, path: seq<string>, t: map<string, Value>, rest: set<string>,
                     k: string, v: Value)
    requires target.Object? && source.Object? && Progress(target, source, path, t, rest) && k in rest
    requires v == if k in t then Merge(t[k], source.fields[k], path + [k]) else source.fields[k]
    ensures Progress(target, source, path, t[k := v], rest - {k})
  {
  }

  // ---------------------------------------------------------------- identities

  lemma LeftIdentity(v: Value)
    ensures Merge(EMPTY, v, []) == v
  {
    if v.Object? {
      assert Merge(EMPTY, v, []).fields == v.fields;
    }
  }

  lemma RightIdentity(v: Value, path: seq<string>)
    requires v.Object?
    ensures Merge(v, EMPTY, path) == v
  {
    assert Merge(v, EMPTY, path).fields == v.fields;
  }

  // ---------------------------------------------------------------- what is at each place

  /** The value has something at the end of these keys. */
  predicate Has(v: Value, p: seq<string>) {
    p == [] || (v.Object? && p[0] in v.fields && Has(v.fields[p[0]], p[1..]))
  }

  function At(v: Value, p: seq<string>): Value
    requires Has(v, p)
  {
    if p == [] then v else At(v.fields[p[0]], p[1..])
  }

  /** On the way there the value has something that is no object. */
  predicate Blocks(v: Value, p: seq<string>) {
    p != [] && (!v.Object? || (p[0] in v.fields && Blocks(v.fields[p[0]], p[1..])))
  }

  predicate IsCommand(p: seq<string>) {
    |p| == 3 && p == ["extension-hosts", p[1], "command"]
  }

  /** What two values at the same place `p` become. */
  predicate Combines(t: Value, s: Value, p: seq<string>, m: Value) {
    if t.Object? && s.Object? then m.Object? && m.fields.Keys == t.fields.Keys + s.fields.Keys
    else if t.Array? && s.Array? && !IsCommand(p) then m == Array(t.items + s.items)
    else m == s
  }

  predicate MergedAt(target: Value, source: Value, path: seq<string>, p: seq<string>, merged: Value) {
    if Has(source, p) then
      Has(merged, p) &&
      if Has(target, p) then Combines(At(target, p), At(source, p), path + p, At(merged, p))
      else At(merged, p) == At(source, p)
    else if Has(target, p) && !Blocks(source, p) then Has(merged, p) && At(merged, p) == At(target, p)
    else !Has(merged, p)
  }

  /** What merging leaves at every place: where both have something, objects share their keys, arrays
      follow one another with the earlier layer's first, except that an argv is that of the later
      layer, and anything else is the later layer's; what only the earlier layer has stays unless the
      later one has something else on the way.
   */
  lemma {:induction false} MergeIs(target: Value, source: Value, path: seq<string>, p: seq<string>)
    ensures MergedAt(target, source, path, p, Merge(target, source, path))
    decreases |p|
  {
    var merged := Merge(target, source, path);
    if p == [] {
      assert path + p == path;
      assert IsCommand(path) <==> IsPositionalArray(path);
    } else if target.Object? && source.Object? {
      assert path + p == path + [p[0]] + p[1..];
      if p[0] in target.fields && p[0] in source.fields {
        MergeIs(target.fields[p[0]], source.fields[p[0]], path + [p[0]], p[1..]);
        assert merged.fields[p[0]] == Merge(target.fields[p[0]], source.fields[p[0]], path + [p[0]]);
      }
    }
  }

  // ---------------------------------------------------------------- associativity

  datatype Kind = ObjectKind | ArrayKind | ScalarKind

  function KindOf(v: Value): Kind {
    if v.Object? then ObjectKind else if v.Array? then ArrayKind else ScalarKind
  }

  /** Nothing of `a` shows once `c` is merged over it. */
  predicate Absorbed(a: Value, c: Value, path: seq<string>)
    decreases c
  {
    if a.Object? && c.Object? then
      forall k :: k in a.fields ==> k in c.fields && Absorbed(a.fields[k], c.fields[k], path + [k])
    else if a.Array? && c.Array? then IsPositionalArray(path) || a.items == []
    else true
  }

  lemma {:induction false} AbsorbedMeaning(a: Value, c: Value, path: seq<string>)
    ensures Merge(a, c, path) == c <==> Absorbed(a, c, path)
    decreases c
  {
    if a.Object? && c.Object? {
      var m := Merge(a, c, path).fields;
      forall k | k in a.fields && k in c.fields
        ensures m[k] == c.fields[k] <==> Absorbed(a.fields[k], c.fields[k], path + [k])
      {
        AbsorbedMeaning(a.fields[k], c.fields[k], path + [k]);
      }
      if Absorbed(a, c, path) {
        assert m.Keys == c.fields.Keys;
        assert m == c.fields;
      } else {
        var k :| k in a.fields && !(k in c.fields && Absorbed(a.fields[k], c.fields[k], path + [k]));
        assert k in m;
      }
    } else if a.Array? && c.Array? && !IsPositionalArray(path) {
      assert |(a.items + c.items)| == |a.items| + |c.items|;
      if a.items == [] {
        assert a.items + c.items == c.items;
      }
    }
  }

  /** No shared path at which the middle layer has another kind than the equal kinds around it,
      unless the first layer leaves no trace under the last anyway.
   */
  predicate NoKindFlip(a: Value, b: Value, c: Value, path: seq<string>)
    decreases c
  {
    if a.Object? && b.Object? && c.Object? then
      forall k :: k in a.fields && k in b.fields && k in c.fields ==>
                    NoKindFlip(a.fields[k], b.fields[k], c.fields[k], path + [k])
    else if KindOf(a) == KindOf(c) && KindOf(b) != KindOf(a) then Absorbed(a, c, path)
    else true
  }

  /** Merging is associative exactly when no such flip occurs. */
  lemma {:induction false} AssociativeIff(a: Value, b: Value, c: Value, path: seq<string>)
    ensures Merge(Merge(a, b, path), c, path) == Merge(a, Merge(b, c, path), path) <==> NoKindFlip(a, b, c, path)
    decreases c
  {
    if a.Object? && b.Object? && c.Object? {
      forall k | k in a.fields && k in b.fields && k in c.fields
        ensures AssociativeAt(a, b, c, path, k) <==>
                NoKindFlip(a.fields[k], b.fields[k], c.fields[k], path + [k])
      {
        AssociativeIff(a.fields[k], b.fields[k], c.fields[k], path + [k]);
      }
      AssociativeObjects(a, b, c, path);
    } else {
      AbsorbedMeaning(a, c, path);
      if a.Array? && b.Array? && c.Array? {
        assert (a.items + b.items) + c.items == a.items + (b.items + c.items);
      }
    }
  }

  predicate AssociativeAt(a: Value, b: Value, c: Value, path: seq<string>, k: string)
    requires a.Object? && b.Object? && c.Object? && k in a.fields && k in b.fields && k in c.fields
  {
    var x, y, z, inner := a.fields[k], b.fields[k], c.fields[k], path + [k];
    Merge(Merge(x, y, inner), z, inner) == Merge(x, Merge(y, z, inner), inner)
  }

  /** For objects, only the keys of all three layers matter. */
  lemma AssociativeObjects(a: Value, b: Value, c: Value, path: seq<string>)
    requires a.Object? && b.Object? && c.Object?
    ensures Merge(Merge(a, b, path), c, path) == Merge(a, Merge(b, c, path), path)
       <==> forall k :: k in a.fields && k in b.fields && k in c.fields ==> AssociativeAt(a, b, c, path, k)
  {
    var left, right := Merge(Merge(a, b, path), c, path).fields, Merge(a, Merge(b, c, path), path).fields;
    assert left.Keys == right.Keys;
    forall k | k in left
      ensures left[k] == right[k] <==>
              (k in a.fields && k in b.fields && k in c.fields ==> AssociativeAt(a, b, c, path, k))
    {
    }
    if forall k :: k in a.fields && k in b.fields && k in c.fields ==> AssociativeAt(a, b, c, path, k) {
      assert left == right;
    } else {
      var k :| k in a.fields && k in b.fields && k in c.fields && !AssociativeAt(a, b, c, path, k);
      assert k in left;
    }
  }

  /** Two layers agree when they have the same kind of value at every path they share. */
  predicate KindsAgree(a: Value, b: Value)
    decreases a
  {
    KindOf(a) == KindOf(b)
    && (a.Object? ==> forall k :: k in a.fields && k in b.fields ==> KindsAgree(a.fields[k], b.fields[k]))
  }

  lemma {:induction false} AgreeingNoFlip(a: Value, b: Value, c: Value, path: seq<string>)
    requires KindsAgree(a, b)
    ensures NoKindFlip(a, b, c, path)
    decreases c
  {
    if a.Object? && b.Object? && c.Object? {
      forall k | k in a.fields && k in b.fields && k in c.fields
        ensures NoKindFlip(a.fields[k], b.fields[k], c.fields[k], path + [k])
      {
        AgreeingNoFlip(a.fields[k], b.fields[k], c.fields[k], path + [k]);
      }
    }
  }

  lemma {:induction false} KindsAgreeSymmetric(a: Value, b: Value)
    requires KindsAgree(a, b)
    ensures KindsAgree(b, a)
    decreases a
  {
    if a.Object? {
      forall k | k in b.fields && k in a.fields ensures KindsAgree(b.fields[k], a.fields[k]) {
        KindsAgreeSymmetric(a.fields[k], b.fields[k]);
      }
    }
  }

  /** What agrees with two layers agrees with their merge. */
  lemma {:induction false} AgreeWithMerge(x: Value, a: Value, b: Value, path: seq<string>)
    requires KindsAgree(x, a) && KindsAgree(x, b)
    ensures KindsAgree(x, Merge(a, b, path))
    decreases x
  {
    if x.Object? {
      var m := Merge(a, b, path);
      forall k | k in x.fields && k in m.fields ensures KindsAgree(x.fields[k], m.fields[k]) {
        if k in a.fields && k in b.fields {
          AgreeWithMerge(x.fields[k], a.fields[k], b.fields[k], path + [k]);
        }
      }
    }
  }

  lemma AgreeingAssociative(a: Value, b: Value, c: Value)
    requires KindsAgree(a, b)
    ensures Merge(Merge(a, b, []), c, []) == Merge(a, Merge(b, c, []), [])
  {
    AgreeingNoFlip(a, b, c, []);
    AssociativeIff(a, b, c, []);
  }

  /** Without agreement the grouping matters: an array, a scalar and an array. */
  lemma FlipBreaksAssociativity()
    ensures var a, b := Array([Null]), Number(0);
            Merge(Merge(a, b, []), a, []) != Merge(a, Merge(b, a, []), [])
  {
    var a, b := Array([Null]), Number(0);
    assert !NoKindFlip(a, b, a, []);
    AssociativeIff(a, b, a, []);
  }

  // ---------------------------------------------------------------- layers in a row

  /** Merging layers one after the other. */
  function FoldLayers(acc: Value, layers: seq<Value>): Value {
    if layers == [] then acc
    else Merge(FoldLayers(acc, layers[..|layers| - 1]), layers[|layers| - 1], [])
  }

  lemma {:induction false} FoldConcat(acc: Value, xs: seq<Value>, ys: seq<Value>)
    ensures FoldLayers(acc, xs + ys) == FoldLayers(FoldLayers(acc, xs), ys)
    decreases |ys|
  {
    if ys == [] {
      assert xs + ys == xs;
    } else {
      var n := |ys| - 1;
      assert (xs + ys)[..|xs + ys| - 1] == xs + ys[..n];
      FoldConcat(acc, xs, ys[..n]);
    }
  }

  /** All layers are objects, and any two of them agree. */
  ghost predicate Agreeing(layers: seq<Value>) {
    && (forall i :: 0 <= i < |layers| ==> layers[i].Object?)
    && (forall i, j :: 0 <= i < j < |layers| ==> KindsAgree(layers[i], layers[j]))
  }

  lemma {:induction false} AgreeWithFold(x: Value, acc: Value, layers: seq<Value>)
    requires KindsAgree(x, acc) && forall i :: 0 <= i < |layers| ==> KindsAgree(x, layers[i])
    ensures KindsAgree(x, FoldLayers(acc, layers))
    decreases |layers|
  {
    if layers != [] {
      var n := |layers| - 1;
      AgreeWithFold(x, acc, layers[..n]);
      AgreeWithMerge(x, FoldLayers(acc, layers[..n]), layers[n], []);
    }
  }

  lemma {:induction false} FoldIsObject(acc: Value, layers: seq<Value>)
    requires acc.Object? && forall i :: 0 <= i < |layers| ==> layers[i].Object?
    ensures FoldLayers(acc, layers).Object?
    decreases |layers|
  {
    if layers != [] {
      FoldIsObject(acc, layers[..|layers| - 1]);
    }
  }

  /** Merging a block of layers that was folded on its own is folding the block in. */
  lemma {:induction false} FoldedBlock(acc: Value, block: seq<Value>)
    requires Agreeing([acc] + block)
    ensures Merge(acc, FoldLayers(EMPTY, block), []) == FoldLayers(acc, block)
    decreases |block|
  {
    var all := [acc] + block;
    assert all[0] == acc && acc.Object?;
    if block == [] {
      RightIdentity(acc, []);
    } else {
      var n := |block| - 1;
      assert forall i :: 0 <= i < |block| ==> block[i] == all[i + 1];
      assert forall i :: 0 <= i < |[acc] + block[..n]| ==> ([acc] + block[..n])[i] == all[i];
      FoldedBlock(acc, block[..n]);
      forall i | 0 <= i < n ensures KindsAgree(acc, block[..n][i]) {
        assert KindsAgree(all[0], all[i + 1]);
      }
      assert KindsAgree(acc, EMPTY);
      AgreeWithFold(acc, EMPTY, block[..n]);
      AgreeingAssociative(acc, FoldLayers(EMPTY, block[..n]), block[n]);
    }
  }
}
