/**
 * AllOf and concat of pkg/authx/requirements.go over slices with backing arrays, as in Go. Module Requirements says
 * which values they compute; this one says in addition which arrays the values live in.
 */
module RequirementsHeap {
  import opened Wrappers
  import R = Requirements

  // ---------------------------------------------------------------- slices

  /**
   * A slice header: a window of `len` cells of a backing array, which may grow in place up to `cap` cells. A nil
   * slice is a window on an array without cells, in which nothing can be written.
   */
  datatype Slice = Slice(buf: array<string>, off: nat, len: nat, cap: nat)
  {
    ghost predicate Valid() {
      len <= cap && off + cap <= buf.Length
    }

    function Elems(): seq<string>
      requires Valid()
      reads buf
    {
      buf[off..off + len]
    }

    /** Every cell of the array is in use: an append to the slice cannot write into spare cells. */
    ghost predicate Exact() {
      off == 0 && len == cap == buf.Length
    }
  }

  /** make([]string, 0, cap) */
  method Make(cap: nat) returns (s: Slice)
    ensures s.Valid() && s.off == 0 && s.len == 0 && s.cap == cap
    ensures fresh(s.buf) && s.buf.Length == cap
  {
    var buf := new string[cap];
    s := Slice(buf, 0, 0, cap);
  }

  /** copy(buf[at:], xs) */
  method Copy(buf: array<string>, at: nat, xs: seq<string>)
    requires at + |xs| <= buf.Length
    modifies buf
    ensures buf[at..at + |xs|] == xs
    ensures forall i | 0 <= i < buf.Length && !(at <= i < at + |xs|) :: buf[i] == old(buf[i])
  {
    for i := 0 to |xs|
      invariant forall j | 0 <= j < i :: buf[at + j] == xs[j]
      invariant forall j | 0 <= j < buf.Length && !(at <= j < at + i) :: buf[j] == old(buf[j])
    {
      buf[at + i] := xs[i];
    }
  }

  /** append(s, xs...): in place while the capacity lasts, otherwise into a new array of some sufficient capacity. */
  method Append(s: Slice, xs: seq<string>) returns (r: Slice)
    requires s.Valid()
    modifies s.buf
    ensures r.Valid() && r.Elems() == old(s.Elems()) + xs
    ensures s.len + |xs| <= s.cap ==> r == s.(len := s.len + |xs|)
    ensures s.len + |xs| > s.cap ==> fresh(r.buf)
    ensures forall i | 0 <= i < s.buf.Length && (r.buf != s.buf || !(s.off + s.len <= i < s.off + s.cap)) ::
              s.buf[i] == old(s.buf[i])
  {
    if s.len + |xs| > s.cap {
      var cap :| s.len + |xs| <= cap;
      var buf := new string[cap];
      Copy(buf, 0, s.Elems());
      assert buf[..s.len] == s.Elems();
      Copy(buf, s.len, xs);
      assert buf[..s.len] == s.Elems();
      r := Slice(buf, 0, s.len + |xs|, cap);
    } else {
      Copy(s.buf, s.off + s.len, xs);
      r := s.(len := s.len + |xs|);
      assert s.buf[s.off..s.off + s.len] == old(s.Elems());
    }
  }

  /** concat(a, b): a new array of exactly the needed size, so neither append reallocates or leaves a spare cell. */
  method Concat(a: Slice, b: Slice) returns (r: Slice)
    requires a.Valid() && b.Valid()
    ensures r.Exact() && r.Elems() == a.Elems() + b.Elems()
    ensures fresh(r.buf)
  {
    if a.len + b.len == 0 {
      r := Make(0);
      return;
    }
    var out := Make(a.len + b.len);
    out := Append(out, a.Elems());
    r := Append(out, b.Elems());
  }

  // ---------------------------------------------------------------- requirements on the heap

  datatype Requirement = Requirement(scopes: Slice, roles: Slice)
  {
    ghost predicate Valid() {
      scopes.Valid() && roles.Valid()
    }

    ghost function Arrays(): set<array<string>> {
      {scopes.buf, roles.buf}
    }

    /** The value this requirement has at the moment. */
    ghost function Value(): R.Requirement
      requires Valid()
      reads scopes.buf, roles.buf
    {
      R.Requirement(scopes.Elems(), roles.Elems())
    }

    /** It uses none of the taken arrays, and its scopes and its roles are on different ones without spare cells. */
    ghost predicate Alone(taken: set<array<string>>) {
      && scopes.Exact() && roles.Exact() && scopes.buf != roles.buf
      && scopes.buf !in taken && roles.buf !in taken
    }
  }

  /** The headers of a disjunction; the alternatives' names are behind their arrays. */
  type Requirements = seq<Requirement>

  ghost function Arrays(alts: Requirements): set<array<string>> {
    if alts == [] then {} else Arrays(alts[..|alts| - 1]) + alts[|alts| - 1].Arrays()
  }

  /** The alternatives are on these arrays and hold these values at the moment. */
  ghost predicate Denotes(alts: Requirements, values: R.Requirements, arrays: set<array<string>>)
    reads arrays
  {
    && |alts| == |values|
    && (alts == [] ||
        var n := |alts| - 1;
        && Denotes(alts[..n], values[..n], arrays)
        && alts[n].Arrays() <= arrays && alts[n].Valid() && alts[n].Value() == values[n])
  }

  ghost predicate DenotesEach(rs: seq<Requirements>, values: seq<R.Requirements>, arrays: set<array<string>>)
    reads arrays
  {
    |rs| == |values| && forall i | 0 <= i < |rs| :: Denotes(rs[i], values[i], arrays)
  }

  lemma {:induction false} DenotesAt(alts: Requirements, values: R.Requirements, arrays: set<array<string>>, i: nat)
    requires Denotes(alts, values, arrays) && i < |alts|
    ensures alts[i].Valid() && alts[i].Value() == values[i] && alts[i].Arrays() <= arrays
  {
    var n := |alts| - 1;
    if i < n {
      DenotesAt(alts[..n], values[..n], arrays, i);
    }
  }

  lemma DenotesLength(alts: Requirements, values: R.Requirements, arrays: set<array<string>>)
    requires Denotes(alts, values, arrays)
    ensures |alts| == |values|
  {
  }

  lemma {:induction false} DenotesMore(alts: Requirements, values: R.Requirements,
                                       arrays: set<array<string>>, more: set<array<string>>)
    requires Denotes(alts, values, arrays) && arrays <= more
    ensures Denotes(alts, values, more)
  {
    if alts == [] {
    } else {
      var n := |alts| - 1;
      DenotesMore(alts[..n], values[..n], arrays, more);
    }
  }

  lemma DenotesSnoc(alts: Requirements, values: R.Requirements, arrays: set<array<string>>,
                    one: Requirement, value: R.Requirement)
    requires Denotes(alts, values, arrays)
    requires one.Valid() && one.Value() == value && one.Arrays() <= arrays
    ensures Denotes(alts + [one], values + [value], arrays)
  {
    var longer, more := alts + [one], values + [value];
    assert longer[..|alts|] == alts && longer[|alts|] == one;
    assert more[..|alts|] == values && more[|alts|] == value;
  }

  lemma {:induction false} DenotesAppend(a: Requirements, b: Requirements, inA: R.Requirements, inB: R.Requirements,
                                         arrays: set<array<string>>)
    requires Denotes(a, inA, arrays) && Denotes(b, inB, arrays)
    ensures Denotes(a + b, inA + inB, arrays)
  {
    if b == [] {
      assert a + b == a && inA + inB == inA;
    } else {
      var n := |b| - 1;
      var front, inFront, last, inLast := b[..n], inB[..n], b[n], inB[n];
      assert Denotes(front, inFront, arrays) && last.Arrays() <= arrays && last.Valid() && last.Value() == inLast;
      hide Denotes;
      DenotesAppend(a, front, inA, inFront, arrays);
      DenotesSnoc(a + front, inA + inFront, arrays, last, inLast);
      AppendSnoc(a, b);
      AppendSnoc(inA, inB);
    }
  }

  /** Every alternative is on arrays of its own. */
  ghost predicate Separate(alts: Requirements) {
    alts == [] ||
    var n := |alts| - 1;
    Separate(alts[..n]) && alts[n].Alone(Arrays(alts[..n]))
  }

  lemma SeparateSnoc(alts: Requirements, one: Requirement)
    requires Separate(alts) && one.Alone(Arrays(alts))
    ensures Separate(alts + [one]) && Arrays(alts + [one]) == Arrays(alts) + one.Arrays()
  {
    assert (alts + [one])[..|alts|] == alts;
  }

  lemma {:induction false} ArraysHolds(alts: Requirements, i: nat)
    requires i < |alts|
    ensures alts[i].Arrays() <= Arrays(alts)
  {
    if i < |alts| - 1 {
      ArraysHolds(alts[..|alts| - 1], i);
    }
  }

  /** What separation means pair by pair. */
  lemma {:induction false} SeparatePairs(alts: Requirements, i: nat, j: nat)
    requires Separate(alts) && i < |alts| && j < |alts|
    ensures i != j ==> alts[i].Arrays() !! alts[j].Arrays()
    ensures alts[i].scopes.buf != alts[i].roles.buf && alts[i].scopes.Exact() && alts[i].roles.Exact()
  {
    var n := |alts| - 1;
    if i < n && j < n {
      SeparatePairs(alts[..n], i, j);
    } else if i < n {
      ArraysHolds(alts[..n], i);
      SeparatePairs(alts[..n], i, i);
    } else if j < n {
      ArraysHolds(alts[..n], j);
    }
  }

  /** One alternative of the product: Requirement{concat(...), concat(...)}. */
  method Combine(acc: Requirement, term: Requirement, ghost taken: set<array<string>>) returns (one: Requirement)
    requires acc.Valid() && term.Valid()
    ensures one.Valid() && one.Value() == R.Merge(acc.Value(), term.Value())
    ensures fresh(one.Arrays()) && one.Alone(taken)
  {
    var scopes := Concat(acc.scopes, term.scopes);
    var roles := Concat(acc.roles, term.roles);
    one := Requirement(scopes, roles);
  }

  lemma {:induction false} SeparateAppend(a: Requirements, b: Requirements)
    requires Separate(a) && Separate(b) && Arrays(a) !! Arrays(b)
    ensures Separate(a + b) && Arrays(a + b) == Arrays(a) + Arrays(b)
  {
    if b == [] {
      assert a + b == a;
    } else {
      var n := |b| - 1;
      SeparateAppend(a, b[..n]);
      SeparateSnoc(a + b[..n], b[n]);
      assert a + b == (a + b[..n]) + [b[n]];
    }
  }

  /** One turn of the inner loop: next = append(next, Requirement{...}) for acc[a] and r[t]. */
  method CombineOne(row: Requirements, acc: Requirements, r: Requirements, a: nat, t: nat,
                    ghost made: R.Requirements, ghost left: R.Requirements, ghost right: R.Requirements,
                    ghost used: set<array<string>>, ghost inputs: set<array<string>>)
    returns (out: Requirements, ghost arrays: set<array<string>>)
    requires Denotes(row, made, used) && Separate(row) && used == Arrays(row)
    requires Denotes(acc, left, inputs) && Denotes(r, right, inputs) && a < |left| && t < |right|
    ensures Denotes(out, made + [R.Merge(left[a], right[t])], arrays)
    ensures Separate(out) && arrays == Arrays(out) && used <= arrays && fresh(arrays - used)
  {
    DenotesAt(acc, left, inputs, a);
    DenotesAt(r, right, inputs, t);
    var one := Combine(acc[a], r[t], used);
    SeparateSnoc(row, one);
    out := row + [one];
    arrays := used + one.Arrays();
    DenotesMore(row, made, used, arrays);
    DenotesSnoc(row, made, arrays, one, R.Merge(left[a], right[t]));
  }

  lemma MergeSnoc(left: R.Requirement, right: R.Requirements, t: nat)
    requires t < |right|
    ensures R.MergeEach(left, right[..t + 1]) == R.MergeEach(left, right[..t]) + [R.Merge(left, right[t])]
  {
  }

  /** The inner loop of AllOf: what it appends for the alternative acc[a] of the accumulator. */
  method CombineEach(acc: Requirements, r: Requirements, a: nat,
                     ghost left: R.Requirements, ghost right: R.Requirements, ghost inputs: set<array<string>>)
    returns (row: Requirements, ghost arrays: set<array<string>>)
    requires Denotes(acc, left, inputs) && Denotes(r, right, inputs) && a < |left|
    ensures Denotes(row, R.MergeEach(left[a], right), arrays)
    ensures Separate(row) && arrays == Arrays(row) && fresh(arrays)
  {
    row, arrays := [], {};
    ghost var made: R.Requirements := [];
    assert Denotes(row, made, arrays) && Separate(row) && arrays == Arrays(row);
    hide Denotes, Separate, Arrays, R.MergeEach, R.Merge;
    for t := 0 to |r|
      invariant made == R.MergeEach(left[a], right[..t])
      invariant Denotes(row, made, arrays)
      invariant Separate(row) && arrays == Arrays(row) && fresh(arrays)
      invariant Denotes(acc, left, inputs) && Denotes(r, right, inputs)
    {
      MergeSnoc(left[a], right, t);
      row, arrays := CombineOne(row, acc, r, a, t, made, left, right, arrays, inputs);
      made := made + [R.Merge(left[a], right[t])];
    }
    assert right[..|r|] == right;
  }

  /** One turn of the middle loop: the row of acc[a] goes behind what the earlier alternatives produced. */
  method CrossOne(next: Requirements, acc: Requirements, r: Requirements, a: nat,
                  ghost made: R.Requirements, ghost left: R.Requirements, ghost right: R.Requirements,
                  ghost used: set<array<string>>, ghost inputs: set<array<string>>)
    returns (out: Requirements, ghost arrays: set<array<string>>)
    requires Denotes(next, made, used) && Separate(next) && used == Arrays(next)
    requires Denotes(acc, left, inputs) && Denotes(r, right, inputs) && a < |left|
    ensures Denotes(out, made + R.MergeEach(left[a], right), arrays)
    ensures Separate(out) && arrays == Arrays(out) && used <= arrays && fresh(arrays - used)
  {
    var row, rowArrays := CombineEach(acc, r, a, left, right, inputs);
    SeparateAppend(next, row);
    out := next + row;
    arrays := used + rowArrays;
    DenotesMore(next, made, used, arrays);
    DenotesMore(row, R.MergeEach(left[a], right), rowArrays, arrays);
    DenotesAppend(next, row, made, R.MergeEach(left[a], right), arrays);
  }

  /** The two inner loops of AllOf: the accumulator crossed with one argument. */
  method CrossEach(acc: Requirements, r: Requirements,
                   ghost left: R.Requirements, ghost right: R.Requirements, ghost inputs: set<array<string>>)
    returns (next: Requirements, ghost arrays: set<array<string>>)
    requires Denotes(acc, left, inputs) && Denotes(r, right, inputs)
    ensures Denotes(next, R.Cross(left, right), arrays) && |next| == R.Capacity(|acc|, |r|)
    ensures Separate(next) && arrays == Arrays(next) && fresh(arrays)
  {
    next, arrays := [], {};
    ghost var made: R.Requirements := [];
    assert Denotes(next, made, arrays) && Separate(next) && arrays == Arrays(next);
    hide Denotes, Separate, Arrays;
    for a := 0 to |acc|
      invariant made == R.Cross(left[..a], right)
      invariant Denotes(next, made, arrays)
      invariant Separate(next) && arrays == Arrays(next) && fresh(arrays)
      invariant Denotes(acc, left, inputs) && Denotes(r, right, inputs)
    {
      R.CrossSnoc(left, right, a);
      next, arrays := CrossOne(next, acc, r, a, made, left, right, arrays, inputs);
      made := made + R.MergeEach(left[a], right);
    }
    assert left[..|acc|] == left;
    DenotesLength(next, R.Cross(left, right), arrays);
    DenotesLength(acc, left, inputs);
    DenotesLength(r, right, inputs);
    R.CrossLength(left, right);
  }

  /** return nil */
  method Nothing() returns (out: Requirements, ghost arrays: set<array<string>>)
    ensures Denotes(out, [], arrays) && Separate(out) && arrays == Arrays(out) == {}
  {
    out, arrays := [], {};
  }

  /**
   * The arrays of the result are new, belong to one alternative each, and hold the values that Requirements.AllOf
   * computes. There is no modifies clause, so no array that existed before is written.
   */
  method AllOf(rs: seq<Requirements>, ghost values: seq<R.Requirements>, ghost inputs: set<array<string>>)
    returns (out: Requirements, ghost arrays: set<array<string>>)
    requires DenotesEach(rs, values, inputs)
    ensures Denotes(out, R.ConjunctionOf(values), arrays) && |out| == R.Product(values)
    ensures Separate(out) && arrays == Arrays(out) && fresh(arrays)
  {
    var nothing := Make(0);
    var none := Make(0);
    out := [Requirement(nothing, none)];
    arrays := {nothing.buf, none.buf};
    SeparateSnoc([], out[0]);
    DenotesSnoc([], [], arrays, out[0], R.UNCONSTRAINED);
    assert out == [] + [out[0]] && R.Authenticated() == [] + [R.UNCONSTRAINED] && values[..0] == [];
    hide Denotes, Separate, Arrays, R.ConjunctionOf, R.Product;
    for i := 0 to |rs|
      invariant Denotes(out, R.ConjunctionOf(values[..i]), arrays)
      invariant Separate(out) && arrays == Arrays(out) && fresh(arrays)
      invariant DenotesEach(rs, values, inputs)
    {
      assert Denotes(rs[i], values[i], inputs);
      DenotesLength(rs[i], values[i], inputs);
      if |rs[i]| == 0 {
        R.ConjunctionWithNothing(values, i);
        R.ConjunctionLength(values);
        out, arrays := Nothing();
        return;
      }
      ghost var made := R.ConjunctionOf(values[..i]);
      DenotesMore(out, made, arrays, arrays + inputs);
      DenotesMore(rs[i], values[i], inputs, arrays + inputs);
      out, arrays := CrossEach(out, rs[i], made, values[i], arrays + inputs);
      R.ConjunctionSnoc(values, i);
    }
    assert values[..|rs|] == values;
    DenotesLength(out, R.ConjunctionOf(values), arrays);
    R.ConjunctionLength(values);
  }

  lemma {:induction false} DenotesFromEach(alts: Requirements, values: R.Requirements, arrays: set<array<string>>)
    requires |alts| == |values|
    requires forall j | 0 <= j < |alts| ::
               alts[j].Valid() && alts[j].Value() == values[j] && alts[j].Arrays() <= arrays
    ensures Denotes(alts, values, arrays)
  {
    if alts == [] {
    } else {
      DenotesFromEach(alts[..|alts| - 1], values[..|alts| - 1], arrays);
    }
  }

  datatype Field = Scopes | Roles

  function Names(alt: Requirement, field: Field): Slice {
    if field.Scopes? then alt.scopes else alt.roles
  }

  ghost function NameValues(alt: R.Requirement, field: Field): seq<string> {
    if field.Scopes? then alt.scopes else alt.roles
  }

  /** The values with one name of one field of one alternative replaced. */
  ghost function WithName(values: R.Requirements, i: nat, field: Field, cell: nat, name: string): R.Requirements
    requires i < |values| && cell < |NameValues(values[i], field)|
  {
    values[i := match field
                case Scopes => values[i].(scopes := values[i].scopes[cell := name])
                case Roles => values[i].(roles := values[i].roles[cell := name])]
  }

  /** alts[i].Scopes[cell] = name or alts[i].Roles[cell] = name changes that one name of that one alternative. */
  method Overwrite(alts: Requirements, i: nat, field: Field, cell: nat, name: string,
                   ghost values: R.Requirements, ghost arrays: set<array<string>>)
    requires Denotes(alts, values, arrays) && Separate(alts)
    requires i < |values| && cell < |NameValues(values[i], field)|
    modifies Names(alts[i], field).buf
    ensures Denotes(alts, WithName(values, i, field, cell, name), arrays)
  {
    DenotesAt(alts, values, arrays, i);
    var names := Names(alts[i], field);
    forall j | 0 <= j < |alts|
      ensures alts[j].Valid() && alts[j].Value() == values[j] && alts[j].Arrays() <= arrays
      ensures j != i ==> names.buf !in alts[j].Arrays()
    {
      DenotesAt(alts, values, arrays, j);
      SeparatePairs(alts, i, j);
    }
    SeparatePairs(alts, i, i);
    names.buf[names.off + cell] := name;
    assert names.Elems() == NameValues(values[i], field)[cell := name];
    forall j | 0 <= j < |alts|
      ensures alts[j].Value() == WithName(values, i, field, cell, name)[j]
    {
    }
    DenotesFromEach(alts, WithName(values, i, field, cell, name), arrays);
  }

  /** Writing any name of a derived alternative reaches neither another alternative nor any argument. */
  method DeriveAndOverwrite(rs: seq<Requirements>, i: nat, field: Field, cell: nat, name: string,
                            ghost values: seq<R.Requirements>, ghost inputs: set<array<string>>)
    returns (out: Requirements, ghost arrays: set<array<string>>)
    requires DenotesEach(rs, values, inputs)
    requires i < |R.ConjunctionOf(values)| && cell < |NameValues(R.ConjunctionOf(values)[i], field)|
    ensures Denotes(out, WithName(R.ConjunctionOf(values), i, field, cell, name), arrays)
    ensures DenotesEach(rs, values, inputs)
  {
    out, arrays := AllOf(rs, values, inputs);
    DenotesAt(out, R.ConjunctionOf(values), arrays, i);
    ArraysHolds(out, i);
    Overwrite(out, i, field, cell, name, R.ConjunctionOf(values), arrays);
  }
}
