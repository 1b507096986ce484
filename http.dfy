/**
 * The one piece of the HTTP layer with behaviour of its own: removing the
 * top struct's name from the keys of a map of validation errors.
 */
module Http {
  import opened GoStrings

  /**
   * `field[strings.Index(field, ".")+1:]`: the key with everything up to
   * and including its first `.` removed.
   */
  function StripTop(field: string): string
  {
    field[Index(field, ".") + 1..]
  }

  /**
   * A key with a `.` loses exactly the part up to its first `.`; for a key
   * without one, Index gives -1 and the whole key is kept.
   */
  lemma StripTopShape(field: string)
    ensures '.' !in field ==> StripTop(field) == field
    ensures '.' in field ==>
              var k := StripTop(field);
              && |k| < |field|
              && field == field[..|field| - |k| - 1] + "." + k
              && '.' !in field[..|field| - |k| - 1]
  {
    if '.' in field {
      StripTopDot(field);
    } else {
      StripTopNoDot(field);
    }
  }

  lemma StripTopNoDot(field: string)
    requires '.' !in field
    ensures Index(field, ".") == -1
  {
    forall j | 0 <= j && j + 1 <= |field|
      ensures !OccursAt(field, ".", j)
    {
      assert field[j..j + 1][0] == field[j];
    }
  }

  lemma StripTopDot(field: string)
    requires '.' in field
    ensures var i := Index(field, ".");
            && 0 <= i < |field|
            && field == field[..i] + "." + field[i + 1..]
            && '.' !in field[..i]
  {
    var j :| 0 <= j < |field| && field[j] == '.';
    assert field[j..j + 1] == ".";
    assert OccursAt(field, ".", j);
    var i := Index(field, ".");
    forall m | 0 <= m < i
      ensures field[m] != '.'
    {
      assert !OccursAt(field, ".", m);
      assert field[m..m + 1] == [field[m]];
    }
    assert field[i..i + 1] == ".";
  }

  /** The stripped keys of a set of keys. */
  function Stripped(keys: set<string>): set<string>
  {
    set k | k in keys :: StripTop(k)
  }

  /** No two keys strip to the same key. */
  predicate StripInjective(keys: set<string>)
  {
    forall a, b :: a in keys && b in keys && StripTop(a) == StripTop(b) ==> a == b
  }

  /** The image of a set of keys under a key mapping. */
  function Image(keys: set<string>, f: string -> string): set<string>
  {
    set k | k in keys :: f(k)
  }

  /** A mapping never yields more keys than it was given, and as many when it is injective on them. */
  lemma {:induction false} ImageSize(keys: set<string>, f: string -> string)
    ensures |Image(keys, f)| <= |keys|
    ensures (forall a, b :: a in keys && b in keys && f(a) == f(b) ==> a == b) ==> |Image(keys, f)| == |keys|
    decreases |keys|
  {
    if keys != {} {
      var x :| x in keys;
      var rest := keys - {x};
      ImageSize(rest, f);
      assert Image(keys, f) == Image(rest, f) + {f(x)};
      if forall a, b :: a in keys && b in keys && f(a) == f(b) ==> a == b {
        assert f(x) !in Image(rest, f);
      }
    }
  }

  /** Stripping never produces more keys than it was given, and as many when none collide. */
  lemma StrippedSize(keys: set<string>)
    ensures |Stripped(keys)| <= |keys|
    ensures StripInjective(keys) ==> |Stripped(keys)| == |keys|
  {
    ImageSize(keys, StripTop);
    assert Stripped(keys) == Image(keys, StripTop);
  }

  /** Adding a key adds its stripped form. */
  lemma StrippedAdd(keys: set<string>, x: string)
    ensures Stripped(keys + {x}) == Stripped(keys) + {StripTop(x)}
  {
  }

  /** Every output entry carries the value of an input entry whose key strips to its key. */
  predicate FromInput(fields: map<string, string>, res: map<string, string>)
  {
    forall k :: k in res ==> exists f :: f in fields && StripTop(f) == k && res[k] == fields[f]
  }

  /** Every input entry is found in the output under its stripped key. */
  predicate KeepsAll(fields: map<string, string>, res: map<string, string>)
  {
    forall f :: f in fields ==> StripTop(f) in res && res[StripTop(f)] == fields[f]
  }

  /** Each output entry records the input key it was written from. */
  predicate Sourced(fields: map<string, string>, res: map<string, string>, src: map<string, string>, done: set<string>)
  {
    forall k :: k in res ==> k in src && src[k] in done && src[k] in fields && StripTop(src[k]) == k && res[k] == fields[src[k]]
  }

  /** Each output entry carries the value of an input entry whose key strips to its key. */
  lemma FromSomeField(fields: map<string, string>, res: map<string, string>, src: map<string, string>)
    requires Sourced(fields, res, src, fields.Keys)
    ensures FromInput(fields, res)
  {
    forall k | k in res
      ensures exists f :: f in fields && StripTop(f) == k && res[k] == fields[f]
    {
      var f := src[k];
      assert f in fields && StripTop(f) == k && res[k] == fields[f];
    }
  }

  /** With no collisions, every input entry reaches the output under its stripped key. */
  lemma AllCarried(fields: map<string, string>, res: map<string, string>, src: map<string, string>)
    requires res.Keys == Stripped(fields.Keys)
    requires Sourced(fields, res, src, fields.Keys)
    requires StripInjective(fields.Keys)
    ensures KeepsAll(fields, res)
  {
    forall f | f in fields
      ensures StripTop(f) in res && res[StripTop(f)] == fields[f]
    {
      var k := StripTop(f);
      assert k in Stripped(fields.Keys);
      var g := src[k];
      assert g in fields && StripTop(g) == StripTop(f);
    }
  }

  /** What the loop's final state gives: the four promises of removeTopStruct. */
  lemma Rekeyed(fields: map<string, string>, res: map<string, string>, src: map<string, string>)
    requires res.Keys == Stripped(fields.Keys)
    requires Sourced(fields, res, src, fields.Keys)
    ensures FromInput(fields, res)
    ensures |res| <= |fields|
    ensures StripInjective(fields.Keys) ==>
              |res| == |fields| && KeepsAll(fields, res)
  {
    FromSomeField(fields, res, src);
    StrippedSize(fields.Keys);
    assert |res| == |res.Keys|;
    assert |fields| == |fields.Keys|;
    if StripInjective(fields.Keys) {
      AllCarried(fields, res, src);
    }
  }

  /** Writing one more input entry under its stripped key keeps every output entry sourced. */
  lemma SourcedStep(fields: map<string, string>, res: map<string, string>, src: map<string, string>, done: set<string>, field: string)
    requires Sourced(fields, res, src, done) && field in fields
    ensures Sourced(fields, res[StripTop(field) := fields[field]], src[StripTop(field) := field], done + {field})
  {
  }

  /**
   * The loop of removeTopStruct: writes every input entry under its stripped
   * key, recording in `src` the input key each output entry was last written
   * from.
   */
  method StripAll(fields: map<string, string>) returns (res: map<string, string>, ghost src: map<string, string>)
    ensures res.Keys == Stripped(fields.Keys)
    ensures Sourced(fields, res, src, fields.Keys)
  {
    res := map[];
    src := map[];
    var rest := fields.Keys;
    ghost var done: set<string> := {};
    while rest != {}
      invariant done + rest == fields.Keys && done !! rest
      invariant res.Keys == Stripped(done)
      invariant Sourced(fields, res, src, done)
      decreases rest
    {
      var field :| field in rest;
      StrippedAdd(done, field);
      SourcedStep(fields, res, src, done, field);
      res := res[StripTop(field) := fields[field]];
      src := src[StripTop(field) := field];
      done := done + {field};
      rest := rest - {field};
    }
    assert done == fields.Keys;
  }

  /**
   * removeTopStruct: a new map holding, under each stripped key, the value
   * of one of the input entries whose key strips to it; which one wins a
   * collision is left open, as Go's map iteration order leaves it.
   */
  method RemoveTopStruct(fields: map<string, string>) returns (res: map<string, string>)
    ensures res.Keys == Stripped(fields.Keys)
    ensures FromInput(fields, res)
    ensures |res| <= |fields|
    ensures StripInjective(fields.Keys) ==> |res| == |fields| && KeepsAll(fields, res)
  {
    ghost var src;
    res, src := StripAll(fields);
    Rekeyed(fields, res, src);
  }
}
