/**
 * Categorical mode-fill of the data loader: for every column in a fixed list,
 * each missing cell is replaced by `mode()[0]`, the most frequent non-missing
 * value of that column, ties going to the value that sorts first.
 */
module ModeFill {
  import opened Wrappers
  import opened StrOrder

  /** One categorical column; `None` is a missing cell. */
  type Column = seq<Option<string>>

  /** The columns the loader fills, in the order it fills them. */
  const ColsToFill: seq<string> := [
    "Multiple Lines", "Internet Type", "Online Security", "Online Backup",
    "Offer",
    "Device Protection Plan", "Premium Tech Support", "Streaming TV",
    "Streaming Movies", "Streaming Music", "Unlimited Data"
  ]

  /** Number of cells of `col` holding `v`. */
  function Count(col: Column, v: string): nat
  {
    if col == [] then 0 else (if col[0] == Some(v) then 1 else 0) + Count(col[1..], v)
  }

  /** Number of missing cells of `col`. */
  function MissingCount(col: Column): (r: nat)
    ensures r <= |col|
  {
    if col == [] then 0 else (if col[0].None? then 1 else 0) + MissingCount(col[1..])
  }

  /** Some cell of `col` holds a value. */
  predicate HasValue(col: Column)
  {
    MissingCount(col) < |col|
  }

  lemma {:induction false} HasValueAt(col: Column)
    ensures HasValue(col) <==> exists i :: 0 <= i < |col| && col[i].Some?
  {
    if col != [] {
      HasValueAt(col[1..]);
      if col[0].None? && HasValue(col[1..]) {
        var i :| 0 <= i < |col| - 1 && col[1..][i].Some?;
        assert col[i + 1].Some?;
      }
      if HasValue(col) && col[0].None? {
        var i :| 0 <= i < |col| && col[i].Some?;
        assert col[1..][i - 1].Some?;
      }
    }
  }

  predicate NoMissing(col: Column)
  {
    forall i :: 0 <= i < |col| ==> col[i].Some?
  }

  /**
   * `m` is what `mode()[0]` returns: it occurs, no value occurs more often, and
   * among the values that occur as often it sorts first.
   */
  ghost predicate IsModeOf(col: Column, m: string)
  {
    && Count(col, m) > 0
    && (forall w :: Count(col, w) <= Count(col, m))
    && (forall w :: Count(col, w) == Count(col, m) ==> LessEq(m, w))
  }

  /** `a` ranks at least as high as `b` in the mode order of `col`. */
  predicate Beats(col: Column, a: string, b: string)
  {
    Count(col, a) > Count(col, b) || (Count(col, a) == Count(col, b) && LessEq(a, b))
  }

  lemma {:induction false} CountPositive(col: Column, v: string)
    ensures Count(col, v) > 0 <==> Some(v) in col
  {
    if col != [] {
      CountPositive(col[1..], v);
      assert col == [col[0]] + col[1..];
    }
  }

  lemma BeatsTransitive(col: Column, a: string, b: string, c: string)
    requires Beats(col, a, b) && Beats(col, b, c)
    ensures Beats(col, a, c)
  {
    if LessEq(a, b) && LessEq(b, c) {
      LessEqTransitive(a, b, c);
    }
  }

  /** The higher ranked of two candidates. */
  function Pick(col: Column, a: string, b: string): string
  {
    if Beats(col, a, b) then a else b
  }

  lemma PickBeatsBoth(col: Column, a: string, b: string)
    ensures Beats(col, Pick(col, a, b), a) && Beats(col, Pick(col, a, b), b)
  {
    LessEqReflexive(a);
    LessEqReflexive(b);
    LessEqTotal(a, b);
  }

  /** The best-ranked value among the cells `col[i..]`, if any cell there has one. */
  function ModeFrom(col: Column, i: nat): (r: Option<string>)
    requires i <= |col|
    ensures r.None? <==> forall j :: i <= j < |col| ==> col[j].None?
    ensures r.Some? ==> r in col[i..]
    decreases |col| - i
  {
    if i == |col| then None
    else
      match ModeFrom(col, i + 1)
      case None => col[i]
      case Some(m) => if col[i].Some? then Some(Pick(col, col[i].value, m)) else Some(m)
  }

  lemma {:induction false} ModeFromBeats(col: Column, i: nat)
    requires i <= |col|
    ensures ModeFrom(col, i).Some? ==>
      forall j :: i <= j < |col| && col[j].Some? ==> Beats(col, ModeFrom(col, i).value, col[j].value)
    decreases |col| - i
  {
    if i < |col| {
      ModeFromBeats(col, i + 1);
      var rest := ModeFrom(col, i + 1);
      if rest.Some? {
        var m := rest.value;
        if col[i].Some? {
          var p := Pick(col, col[i].value, m);
          PickBeatsBoth(col, col[i].value, m);
          forall j | i < j < |col| && col[j].Some?
            ensures Beats(col, p, col[j].value)
          {
            BeatsTransitive(col, p, m, col[j].value);
          }
        }
      } else if col[i].Some? {
        LessEqReflexive(col[i].value);
      }
    }
  }

  /** `mode()[0]` of a column, or `None` when every cell is missing (where pandas raises). */
  function Mode(col: Column): (r: Option<string>)
    ensures r.None? <==> !HasValue(col)
    ensures r.Some? ==> IsModeOf(col, r.value)
  {
    ModeFromBeats(col, 0);
    HasValueAt(col);
    var r := ModeFrom(col, 0);
    if r.Some? then
      var m := r.value;
      assert Count(col, m) > 0 by { CountPositive(col, m); }
      assert forall w :: Count(col, w) > 0 ==> Beats(col, m, w) by {
        forall w | Count(col, w) > 0 ensures Beats(col, m, w) {
          CountPositive(col, w);
          var j :| 0 <= j < |col| && col[j] == Some(w);
        }
      }
      r
    else
      r
  }

  /** At most one value satisfies `IsModeOf`: the mode of a column is well defined. */
  lemma ModeUnique(col: Column, a: string, b: string)
    requires IsModeOf(col, a) && IsModeOf(col, b)
    ensures a == b
  {
    LessEqAntisymmetric(a, b);
  }

  /** Any value with the mode property is what `Mode` computes. */
  lemma ModeIsTheMode(col: Column, m: string)
    requires IsModeOf(col, m)
    ensures Mode(col) == Some(m)
  {
    CountPositive(col, m);
    ModeUnique(col, Mode(col).value, m);
  }

  /** `fillna(v)`: every missing cell becomes `v`, every other cell stays. */
  function FillMissing(col: Column, v: string): (r: Column)
    ensures |r| == |col|
    ensures forall i :: 0 <= i < |col| ==> r[i] == (if col[i].Some? then col[i] else Some(v))
  {
    if col == [] then [] else [if col[0].Some? then col[0] else Some(v)] + FillMissing(col[1..], v)
  }

  /** Filling with `v` adds every missing cell to the count of `v` and to no other value. */
  lemma {:induction false} CountAfterFill(col: Column, v: string, w: string)
    ensures Count(FillMissing(col, v), w) == Count(col, w) + (if w == v then MissingCount(col) else 0)
  {
    if col != [] {
      CountAfterFill(col[1..], v, w);
      assert FillMissing(col, v)[1..] == FillMissing(col[1..], v);
    }
  }

  /** The fill value stays the mode once the column is filled with it. */
  lemma FillKeepsMode(col: Column)
    requires HasValue(col)
    ensures Mode(FillMissing(col, Mode(col).value)) == Mode(col)
  {
    var m := Mode(col).value;
    var f := FillMissing(col, m);
    CountAfterFill(col, m, m);
    forall w ensures Count(f, w) <= Count(f, m) && (Count(f, w) == Count(f, m) ==> LessEq(m, w)) {
      CountAfterFill(col, m, w);
      if w != m && Count(f, w) == Count(f, m) {
        assert Count(col, w) >= Count(col, m);
      }
    }
    ModeIsTheMode(f, m);
  }

  /** A column with its missing cells filled by its mode; `None` where the mode is empty and the lookup raises. */
  function ModeFilled(col: Column): (r: Option<Column>)
    ensures r.None? <==> !HasValue(col)
    ensures r.Some? ==>
      && |r.value| == |col|
      && NoMissing(r.value)
      && (forall i :: 0 <= i < |col| && col[i].Some? ==> r.value[i] == col[i])
      && (forall i :: 0 <= i < |col| && col[i].None? ==> r.value[i] == Mode(col))
  {
    match Mode(col)
    case None => None
    case Some(m) => Some(FillMissing(col, m))
  }

  /** Filling an already filled column changes nothing. */
  lemma {:induction false} ModeFilledIdempotent(col: Column)
    requires HasValue(col)
    ensures HasValue(ModeFilled(col).value)
    ensures ModeFilled(ModeFilled(col).value) == ModeFilled(col)
  {
    var f := ModeFilled(col).value;
    assert f == FillMissing(col, Mode(col).value);
    var i :| 0 <= i < |col| && col[i].Some?;
    assert f[i].Some?;
    FillKeepsMode(col);
    assert FillMissing(f, Mode(f).value) == f;
  }

  /** Every name in `done` names a loaded column that has a value. */
  ghost predicate AllFillable(orig: map<string, Column>, done: seq<string>)
  {
    forall k :: 0 <= k < |done| ==> done[k] in orig && HasValue(orig[done[k]])
  }

  /** Every column named in `done` is mode-filled from its loaded value. */
  ghost predicate ListedFilled(orig: map<string, Column>, cur: map<string, Column>, done: seq<string>)
  {
    forall name :: name in cur && name in done ==> name in orig && HasValue(orig[name]) && cur[name] == ModeFilled(orig[name]).value
  }

  /** Every column not named in `done` is as loaded. */
  ghost predicate UnlistedKept(orig: map<string, Column>, cur: map<string, Column>, done: seq<string>)
  {
    forall name :: name in cur && name !in done ==> name in orig && cur[name] == orig[name]
  }

  /**
   * `cur` is `orig` after the names in `done` were filled one by one: every one
   * of them had a value, they are mode-filled, and every other column is as
   * loaded.
   */
  ghost predicate Processed(orig: map<string, Column>, cur: map<string, Column>, done: seq<string>)
  {
    && cur.Keys == orig.Keys
    && AllFillable(orig, done)
    && ListedFilled(orig, cur, done)
    && UnlistedKept(orig, cur, done)
  }

  lemma ProcessedStep(orig: map<string, Column>, cur: map<string, Column>, done: seq<string>, name: string)
    requires Processed(orig, cur, done)
    requires name in cur && HasValue(cur[name])
    ensures Processed(orig, cur[name := ModeFilled(cur[name]).value], done + [name])
  {
    var next := cur[name := ModeFilled(cur[name]).value];
    var done' := done + [name];
    assert next.Keys == orig.Keys;
    assert name in orig && HasValue(orig[name]) && next[name] == ModeFilled(orig[name]).value by {
      if name in done {
        ModeFilledIdempotent(orig[name]);
      }
    }
    assert AllFillable(orig, done') by {
      forall k | 0 <= k < |done'| ensures done'[k] in orig && HasValue(orig[done'[k]]) {
        if k < |done| {
          assert done'[k] == done[k];
        }
      }
    }
    assert UnlistedKept(orig, next, done') by {
      forall n | n in next && n !in done' ensures n in orig && next[n] == orig[n] {
        assert n != name && n !in done;
      }
    }
    assert ListedFilled(orig, next, done') by {
      forall n | n in next && n in done' ensures n in orig && HasValue(orig[n]) && next[n] == ModeFilled(orig[n]).value {
        if n != name {
          assert n in done;
        }
      }
    }
  }

  lemma ProcessedFail(orig: map<string, Column>, cur: map<string, Column>, done: seq<string>, name: string)
    requires Processed(orig, cur, done)
    requires !(name in cur && HasValue(cur[name]))
    ensures !(name in orig && HasValue(orig[name]))
  {
  }

  /**
   * The loaded table's categorical columns by name. All columns have `rows`
   * cells.
   */
  class Frame {
    var rows: nat
    var columns: map<string, Column>

    ghost predicate Valid()
      reads this
    {
      forall name :: name in columns ==> |columns[name]| == rows
    }

    constructor (rows: nat, columns: map<string, Column>)
      requires forall name :: name in columns ==> |columns[name]| == rows
      ensures Valid() && this.rows == rows && this.columns == columns
    {
      this.rows := rows;
      this.columns := columns;
    }

    /**
     * Replaces the named column by its mode-filled version. Fails, changing
     * nothing, when the column is absent (KeyError) or has no value at all
     * (the mode is empty and indexing it raises).
     */
    method FillColumn(name: string) returns (ok: bool)
      requires Valid()
      modifies this
      ensures Valid() && rows == old(rows)
      ensures ok <==> name in old(columns) && HasValue(old(columns)[name])
      ensures ok ==> columns == old(columns)[name := ModeFilled(old(columns)[name]).value]
      ensures !ok ==> columns == old(columns)
    {
      if name !in columns {
        return false;
      }
      var filled := ModeFilled(columns[name]);
      if filled.None? {
        return false;
      }
      columns := columns[name := filled.value];
      ok := true;
    }

    /**
     * The loader's categorical cleaning: the fill loop run over the fixed list
     * `ColsToFill`. It succeeds iff each of those columns is present and has a
     * value, and then each of them is mode-filled and no other column changes.
     */
    method FillCategoricals() returns (ok: bool)
      requires Valid()
      modifies this
      ensures Valid() && rows == old(rows) && columns.Keys == old(columns).Keys
      ensures ok <==> forall name :: name in ColsToFill ==> name in old(columns) && HasValue(old(columns)[name])
      ensures forall name :: name in columns && name !in ColsToFill ==> columns[name] == old(columns)[name]
      ensures ok ==> forall name :: name in columns && name in ColsToFill ==>
        HasValue(old(columns)[name]) && columns[name] == ModeFilled(old(columns)[name]).value
    {
      ok := FillColumns(ColsToFill);
    }

    /**
     * The loader's fill loop over the listed columns: fills each in turn and
     * stops at the first that fails. On success every listed column is
     * mode-filled from its loaded value; columns not listed never change.
     */
    method FillColumns(names: seq<string>) returns (ok: bool)
      requires Valid()
      modifies this
      ensures Valid() && rows == old(rows) && columns.Keys == old(columns).Keys
      ensures ok <==> forall k :: 0 <= k < |names| ==> names[k] in old(columns) && HasValue(old(columns)[names[k]])
      ensures forall name :: name in columns && name !in names ==> columns[name] == old(columns)[name]
      ensures ok ==> forall name :: name in columns && name in names ==>
        HasValue(old(columns)[name]) && columns[name] == ModeFilled(old(columns)[name]).value
    {
      for i := 0 to |names|
        invariant Valid() && rows == old(rows)
        invariant Processed(old(columns), columns, names[..i])
      {
        var name := names[i];
        ghost var before := columns;
        var done := FillColumn(name);
        if !done {
          ProcessedFail(old(columns), before, names[..i], name);
          return false;
        }
        ProcessedStep(old(columns), before, names[..i], name);
        assert names[..i + 1] == names[..i] + [name];
      }
      assert names[..|names|] == names;
      ok := true;
    }
  }
}
