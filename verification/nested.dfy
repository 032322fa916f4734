/** Placing field values into a nested document at their dotted paths
    (`buildNestedObjectFromWidgets`, and the structured-builder branch of
    `getValueRecursive`), reading a document back by path, and the
    restore loop that puts saved values back onto freshly built fields. */
module Nested {
  import opened Wrappers
  import opened Text
  import opened Json
  import opened Widgets

  type Path = seq<string>

  /** Neither path is a prefix of the other. */
  predicate Unrelated(p: Path, q: Path) {
    !IsPrefix(p, q) && !IsPrefix(q, p)
  }

  /** The value reached from `v` by following the keys of `p`, descending
      only through mappings. */
  function GetPath(v: JVal, p: Path): Option<JVal>
    decreases |p|
  {
    if |p| == 0 then Some(v)
    else if !v.JObj? then None
    else
      var c := Get(v.fields, p[0]);
      if c.None? then None else GetPath(c.value, p[1..])
  }

  /** Every proper, non-empty prefix of `q` leads, inside `fs`, to nothing
      or to a mapping, so that assigning at `q` never descends into a
      scalar (which would make the source throw). */
  predicate Descendable(fs: Fields, q: Path) {
    forall k :: 1 <= k < |q| ==>
      (GetPath(JObj(fs), q[..k]).None? || GetPath(JObj(fs), q[..k]).value.JObj?)
  }

  /** The assignment loop: walk `q`, creating `{}` for each missing
      intermediate key, and set the last key to `v`. */
  function SetPath(fs: Fields, q: Path, v: JVal): Fields
    requires |q| >= 1
    decreases |q|
  {
    if |q| == 1 then SetKey(fs, q[0], v)
    else
      var c := Get(fs, q[0]);
      if c.None? then SetKey(fs, q[0], JObj(SetPath([], q[1..], v)))
      else if c.value.JObj? then SetKey(fs, q[0], JObj(SetPath(c.value.fields, q[1..], v)))
      else fs  // a scalar on the way: excluded by `Descendable`
  }

  lemma GetPathEmptyObject(p: Path)
    requires |p| >= 1
    ensures GetPath(JObj([]), p) == None
  {
  }

  lemma GetPathStep(fs: Fields, p: Path)
    requires |p| >= 1
    ensures GetPath(JObj(fs), p)
      == if Get(fs, p[0]).None? then None else GetPath(Get(fs, p[0]).value, p[1..])
  {
  }

  /** The specification of one assignment, as a predicate over the path read. */
  predicate SetPathReads(fs: Fields, q: Path, v: JVal, p: Path)
    requires |q| >= 1
  {
    var r := GetPath(JObj(SetPath(fs, q, v)), p);
    && (p == q ==> r == Some(v))
    && (IsProperPrefix(p, q) ==> r.Some? && r.value.JObj?)
    && (IsProperPrefix(q, p) ==> r == GetPath(v, p[|q|..]))
    && (Unrelated(p, q) ==> r == GetPath(JObj(fs), p))
  }

  /** Reading after assigning `v` at `q`: `q` itself gives `v`, a proper
      prefix of `q` gives a mapping, a path through `q` reads inside `v`,
      and every path unrelated to `q` reads what it read before. */
  lemma {:induction false} SetPathSpec(fs: Fields, q: Path, v: JVal, p: Path)
    requires |q| >= 1
    requires Descendable(fs, q)
    ensures SetPathReads(fs, q, v, p)
    decreases |q|
  {
    if |p| == 0 {
      assert IsProperPrefix(p, q);
    } else if p[0] != q[0] {
      SetPathOtherKey(fs, q, v, p);
    } else if |q| == 1 {
      SetPathLastKey(fs, q, v, p);
    } else {
      var c := Get(fs, q[0]);
      assert q[..1] == [q[0]];
      GetPathStep(fs, q[..1]);
      var sub := if c.None? then [] else c.value.fields;
      DescendableChild(fs, q);
      SetPathSpec(sub, q[1..], v, p[1..]);
      SetPathDeeper(fs, q, v, p);
    }
  }

  lemma SetPathOtherKey(fs: Fields, q: Path, v: JVal, p: Path)
    requires |q| >= 1 && |p| >= 1 && p[0] != q[0]
    ensures GetPath(JObj(SetPath(fs, q, v)), p) == GetPath(JObj(fs), p)
    ensures Unrelated(p, q)
  {
    GetPathStep(SetPath(fs, q, v), p);
    GetPathStep(fs, p);
  }

  lemma SetPathLastKey(fs: Fields, q: Path, v: JVal, p: Path)
    requires |q| == 1 && |p| >= 1 && p[0] == q[0]
    ensures SetPathReads(fs, q, v, p)
  {
    GetPathStep(SetPath(fs, q, v), p);
    if |p| == 1 {
      assert p == q;
    } else {
      assert IsProperPrefix(q, p);
      assert p[1..] == p[|q|..];
    }
  }

  /** Descending one key keeps `Descendable`. */
  lemma DescendableChild(fs: Fields, q: Path)
    requires |q| >= 2 && Descendable(fs, q)
    ensures Get(fs, q[0]).None? || Get(fs, q[0]).value.JObj?
    ensures Descendable(if Get(fs, q[0]).None? then [] else Get(fs, q[0]).value.fields, q[1..])
  {
    var c := Get(fs, q[0]);
    assert q[..1] == [q[0]];
    GetPathStep(fs, q[..1]);
    var sub := if c.None? then [] else c.value.fields;
    forall k | 1 <= k < |q[1..]|
      ensures GetPath(JObj(sub), q[1..][..k]).None? || GetPath(JObj(sub), q[1..][..k]).value.JObj?
    {
      assert q[..k + 1][0] == q[0] && q[..k + 1][1..] == q[1..][..k];
      GetPathStep(fs, q[..k + 1]);
      if c.None? {
        GetPathEmptyObject(q[1..][..k]);
      }
    }
  }

  /** Prefix relations between two paths with the same first key are those
      between their tails. */
  lemma PrefixShift(p: Path, q: Path)
    requires |p| >= 1 && |q| >= 1 && p[0] == q[0]
    ensures p == q <==> p[1..] == q[1..]
    ensures IsProperPrefix(p, q) <==> IsProperPrefix(p[1..], q[1..])
    ensures IsProperPrefix(q, p) <==> IsProperPrefix(q[1..], p[1..])
    ensures Unrelated(p, q) <==> Unrelated(p[1..], q[1..])
    ensures |q| <= |p| ==> p[|q|..] == p[1..][|q[1..]|..]
  {
    assert p == [p[0]] + p[1..];
    assert q == [q[0]] + q[1..];
    if IsPrefix(p[1..], q[1..]) {
      assert q[..|p|] == [q[0]] + q[1..][..|p[1..]|];
    }
    if IsPrefix(q[1..], p[1..]) {
      assert p[..|q|] == [p[0]] + p[1..][..|q[1..]|];
    }
    if IsPrefix(p, q) {
      assert q[1..][..|p[1..]|] == q[..|p|][1..];
    }
    if IsPrefix(q, p) {
      assert p[1..][..|q[1..]|] == p[..|q|][1..];
    }
  }

  lemma SetPathDeeper(fs: Fields, q: Path, v: JVal, p: Path)
    requires |q| >= 2 && |p| >= 1 && p[0] == q[0]
    requires Get(fs, q[0]).None? || Get(fs, q[0]).value.JObj?
    requires SetPathReads(if Get(fs, q[0]).None? then [] else Get(fs, q[0]).value.fields, q[1..], v, p[1..])
    ensures SetPathReads(fs, q, v, p)
  {
    var c := Get(fs, q[0]);
    var sub := if c.None? then [] else c.value.fields;
    var nfs := SetPath(fs, q, v);
    assert nfs == SetKey(fs, q[0], JObj(SetPath(sub, q[1..], v)));
    GetPathStep(nfs, p);
    if |p| == 1 {
      assert IsProperPrefix(p, q);
    } else {
      GetPathStep(fs, p);
      PrefixShift(p, q);
      if c.None? {
        GetPathEmptyObject(p[1..]);
      }
    }
  }

  // ---------------------------------------------------------------------
  // Which widgets contribute, and the document they build
  // ---------------------------------------------------------------------

  /** The value a widget contributes: `_otherPopupValue` when it is defined
      and `usePopup` is set (the serialiser does this, the graph resolver
      does not), else `value`. */
  function Effective(w: Widget, usePopup: bool): Option<JVal> {
    if usePopup && w.otherPopup.Some? then w.otherPopup else w.value
  }

  /** `""`, `null` or `undefined`: skipped by both serialisers. */
  predicate IsBlank(o: Option<JVal>) {
    o.None? || o.value == JNull || o.value == JStr("")
  }

  /** A visible, path-bearing widget with a non-blank value. */
  predicate Contributes(w: Widget, usePopup: bool) {
    HasPath(w) && !w.hidden && !IsBlank(Effective(w, usePopup))
  }

  /** The serialisation loop over the widgets, in order. */
  function Nest(ws: seq<Widget>, usePopup: bool): Fields
    decreases |ws|
  {
    if |ws| == 0 then []
    else
      var acc := Nest(ws[..|ws| - 1], usePopup);
      var w := ws[|ws| - 1];
      if Contributes(w, usePopup) then SetPath(acc, Segments(w), Effective(w, usePopup).value) else acc
  }

  /** `buildNestedObjectFromWidgets(node)`. */
  function BuildNestedObject(ws: seq<Widget>): JVal {
    JObj(Nest(ws, true))
  }

  /** The mapping a structured-builder node resolves to in the graph. */
  function ResolveStructured(ws: seq<Widget>): JVal {
    JObj(Nest(ws, false))
  }

  /** No contributing path is a proper prefix of another. (The source
      throws a TypeError when it has to descend into a scalar.) */
  predicate PrefixFree(ws: seq<Widget>, usePopup: bool) {
    forall i, j ::
      (0 <= i < |ws| && 0 <= j < |ws| && Contributes(ws[i], usePopup) && Contributes(ws[j], usePopup))
          ==> !IsProperPrefix(Segments(ws[i]), Segments(ws[j]))
  }

  predicate IsContribPath(ws: seq<Widget>, usePopup: bool, p: Path) {
    exists i :: 0 <= i < |ws| && Contributes(ws[i], usePopup) && Segments(ws[i]) == p
  }

  predicate BelowContribPath(ws: seq<Widget>, usePopup: bool, p: Path) {
    exists i :: 0 <= i < |ws| && Contributes(ws[i], usePopup) && IsProperPrefix(p, Segments(ws[i]))
  }

  predicate UnrelatedToAll(ws: seq<Widget>, usePopup: bool, p: Path) {
    forall i :: 0 <= i < |ws| && Contributes(ws[i], usePopup) ==> Unrelated(p, Segments(ws[i]))
  }

  /** The reference answer for a contributing path: the value of the LAST
      contributing widget whose path it is. */
  function LastValueAt(ws: seq<Widget>, usePopup: bool, p: Path): Option<JVal>
    decreases |ws|
  {
    if |ws| == 0 then None
    else
      var w := ws[|ws| - 1];
      if Contributes(w, usePopup) && Segments(w) == p then Effective(w, usePopup)
      else LastValueAt(ws[..|ws| - 1], usePopup, p)
  }

  lemma LastValueAtFound(ws: seq<Widget>, usePopup: bool, p: Path)
    requires IsContribPath(ws, usePopup, p)
    ensures LastValueAt(ws, usePopup, p).Some?
    ensures !IsBlank(LastValueAt(ws, usePopup, p))
    decreases |ws|
  {
    var w := ws[|ws| - 1];
    if !(Contributes(w, usePopup) && Segments(w) == p) {
      var i :| 0 <= i < |ws| && Contributes(ws[i], usePopup) && Segments(ws[i]) == p;
      assert i < |ws| - 1 && ws[..|ws| - 1][i] == ws[i];
      LastValueAtFound(ws[..|ws| - 1], usePopup, p);
    }
  }

  lemma PrefixTrans(a: Path, b: Path, c: Path)
    ensures IsPrefix(a, b) && IsPrefix(b, c) ==> IsPrefix(a, c)
  {
    if IsPrefix(a, b) && IsPrefix(b, c) {
      assert c[..|a|] == c[..|b|][..|a|];
    }
  }

  /** Two prefixes of the same path are related. */
  lemma PrefixesRelated(a: Path, b: Path, c: Path)
    requires IsPrefix(a, c) && IsPrefix(b, c)
    ensures IsPrefix(a, b) || IsPrefix(b, a)
  {
    if |a| <= |b| {
      assert b[..|a|] == c[..|b|][..|a|] == c[..|a|];
    } else {
      assert a[..|b|] == c[..|a|][..|b|] == c[..|b|];
    }
  }

  /** Every path is, with respect to the contributing paths of `ws`, one
      of them, strictly above one, below one, or unrelated to all. */
  lemma Classify(ws: seq<Widget>, usePopup: bool, p: Path)
    ensures || IsContribPath(ws, usePopup, p)
            || BelowContribPath(ws, usePopup, p)
            || UnrelatedToAll(ws, usePopup, p)
            || exists i :: 0 <= i < |ws| && Contributes(ws[i], usePopup)
                 && IsProperPrefix(Segments(ws[i]), p)
  {
    if !UnrelatedToAll(ws, usePopup, p) {
      var i :| 0 <= i < |ws| && Contributes(ws[i], usePopup) && !Unrelated(p, Segments(ws[i]));
      var q := Segments(ws[i]);
      if p == q {
      } else if IsPrefix(p, q) {
        assert IsProperPrefix(p, q);
      } else {
        assert IsProperPrefix(q, p);
      }
    }
  }

  /** What the built document holds, for contributing paths that are
      prefix-free: each contributing path holds the value of its last
      contributing widget, each proper prefix of one holds a mapping, and
      a path unrelated to every contributing path holds nothing. */
  lemma {:induction false} NestSpec(ws: seq<Widget>, usePopup: bool, p: Path)
    requires PrefixFree(ws, usePopup)
    ensures var doc := JObj(Nest(ws, usePopup));
      && (IsContribPath(ws, usePopup, p) ==> GetPath(doc, p) == LastValueAt(ws, usePopup, p))
      && (BelowContribPath(ws, usePopup, p) ==> GetPath(doc, p).Some? && GetPath(doc, p).value.JObj?)
      && (|p| > 0 && UnrelatedToAll(ws, usePopup, p) ==> GetPath(doc, p) == None)
    decreases |ws|
  {
    if |ws| == 0 {
      if |p| > 0 {
        GetPathEmptyObject(p);
      }
    } else {
      var n := |ws| - 1;
      var ws' := ws[..n];
      var w := ws[n];
      assert forall i :: 0 <= i < n ==> ws'[i] == ws[i];
      assert PrefixFree(ws', usePopup);
      if !Contributes(w, usePopup) {
        NestSpec(ws', usePopup, p);
        ShrinkNonContributing(ws, usePopup, p);
      } else {
        var q := Segments(w);
        var v := Effective(w, usePopup).value;
        AccDescendable(ws, usePopup);
        SetPathSpec(Nest(ws', usePopup), q, v, p);
        NestSpec(ws', usePopup, p);
        if IsContribPath(ws, usePopup, p) && p != q {
          StepContrib(ws, usePopup, p);
        }
        if BelowContribPath(ws, usePopup, p) && !IsProperPrefix(p, q) {
          StepBelow(ws, usePopup, p);
        }
        if UnrelatedToAll(ws, usePopup, p) {
          StepUnrelated(ws, usePopup, p);
        }
      }
    }
  }

  lemma ShrinkNonContributing(ws: seq<Widget>, usePopup: bool, p: Path)
    requires |ws| > 0 && !Contributes(ws[|ws| - 1], usePopup)
    ensures var ws' := ws[..|ws| - 1];
      && (IsContribPath(ws, usePopup, p) <==> IsContribPath(ws', usePopup, p))
      && (BelowContribPath(ws, usePopup, p) <==> BelowContribPath(ws', usePopup, p))
      && (UnrelatedToAll(ws, usePopup, p) <==> UnrelatedToAll(ws', usePopup, p))
      && LastValueAt(ws, usePopup, p) == LastValueAt(ws', usePopup, p)
  {
    var n := |ws| - 1;
    var ws' := ws[..n];
    assert forall i :: 0 <= i < n ==> ws'[i] == ws[i];
    if IsContribPath(ws, usePopup, p) {
      var i :| 0 <= i < |ws| && Contributes(ws[i], usePopup) && Segments(ws[i]) == p;
      assert i < n;
    }
    if BelowContribPath(ws, usePopup, p) {
      var i :| 0 <= i < |ws| && Contributes(ws[i], usePopup) && IsProperPrefix(p, Segments(ws[i]));
      assert i < n;
    }
  }

  /** Before the last contributing widget is placed, every proper prefix of
      its path leads to nothing or to a mapping. */
  lemma AccDescendable(ws: seq<Widget>, usePopup: bool)
    requires |ws| > 0 && Contributes(ws[|ws| - 1], usePopup)
    requires PrefixFree(ws, usePopup)
    ensures Descendable(Nest(ws[..|ws| - 1], usePopup), Segments(ws[|ws| - 1]))
    decreases |ws|, 0
  {
    var n := |ws| - 1;
    var ws' := ws[..n];
    var q := Segments(ws[n]);
    var acc := Nest(ws', usePopup);
    assert forall i :: 0 <= i < n ==> ws'[i] == ws[i];
    assert PrefixFree(ws', usePopup);
    forall k | 1 <= k < |q|
      ensures GetPath(JObj(acc), q[..k]).None? || GetPath(JObj(acc), q[..k]).value.JObj?
    {
      var r := q[..k];
      assert IsProperPrefix(r, q);
      NestSpec(ws', usePopup, r);
      Classify(ws', usePopup, r);
      assert !IsContribPath(ws', usePopup, r) by {
        forall i | 0 <= i < n && Contributes(ws'[i], usePopup)
          ensures Segments(ws'[i]) != r
        {
          assert ws'[i] == ws[i];
        }
      }
      forall i | 0 <= i < n && Contributes(ws'[i], usePopup)
        ensures !IsProperPrefix(Segments(ws'[i]), r)
      {
        assert ws'[i] == ws[i];
        if IsPrefix(Segments(ws[i]), r) {
          PrefixTrans(Segments(ws[i]), r, q);
        }
      }
    }
  }

  /** The step cases that place the last widget, at path `q`: another
      contributing path is unrelated to `q`, ... */
  lemma StepContrib(ws: seq<Widget>, usePopup: bool, p: Path)
    requires |ws| > 0 && Contributes(ws[|ws| - 1], usePopup)
    requires PrefixFree(ws, usePopup)
    requires IsContribPath(ws, usePopup, p) && p != Segments(ws[|ws| - 1])
    ensures IsContribPath(ws[..|ws| - 1], usePopup, p)
    ensures Unrelated(p, Segments(ws[|ws| - 1]))
    ensures LastValueAt(ws, usePopup, p) == LastValueAt(ws[..|ws| - 1], usePopup, p)
  {
    var n := |ws| - 1;
    var i :| 0 <= i < |ws| && Contributes(ws[i], usePopup) && Segments(ws[i]) == p;
    assert i < n && ws[..n][i] == ws[i];
    assert !IsProperPrefix(p, Segments(ws[n])) && !IsProperPrefix(Segments(ws[n]), p);
  }

  /** ... a path strictly above another contributing path, but not above
      `q`, is unrelated to `q`, ... */
  lemma StepBelow(ws: seq<Widget>, usePopup: bool, p: Path)
    requires |ws| > 0 && Contributes(ws[|ws| - 1], usePopup)
    requires PrefixFree(ws, usePopup)
    requires BelowContribPath(ws, usePopup, p) && !IsProperPrefix(p, Segments(ws[|ws| - 1]))
    ensures BelowContribPath(ws[..|ws| - 1], usePopup, p)
    ensures Unrelated(p, Segments(ws[|ws| - 1]))
  {
    var n := |ws| - 1;
    var q := Segments(ws[n]);
    var i :| 0 <= i < |ws| && Contributes(ws[i], usePopup) && IsProperPrefix(p, Segments(ws[i]));
    if i == n {
      assert false;
    }
    assert ws[..n][i] == ws[i];
    PrefixTrans(q, p, Segments(ws[i]));
  }

  /** ... and a path unrelated to all contributing paths is unrelated to
      `q` in particular. */
  lemma StepUnrelated(ws: seq<Widget>, usePopup: bool, p: Path)
    requires |ws| > 0 && Contributes(ws[|ws| - 1], usePopup)
    requires UnrelatedToAll(ws, usePopup, p)
    ensures UnrelatedToAll(ws[..|ws| - 1], usePopup, p)
    ensures Unrelated(p, Segments(ws[|ws| - 1]))
  {
    var n := |ws| - 1;
    assert forall i :: 0 <= i < n ==> ws[..n][i] == ws[i];
  }

  /** Without "other" popup values the serialiser and the graph resolver
      build the same document. */
  lemma {:induction false} NestIgnoresPopupWhenUnset(ws: seq<Widget>)
    requires forall i :: 0 <= i < |ws| ==> ws[i].otherPopup.None?
    ensures BuildNestedObject(ws) == ResolveStructured(ws)
    decreases |ws|
  {
    if |ws| > 0 {
      var ws' := ws[..|ws| - 1];
      assert forall i :: 0 <= i < |ws'| ==> ws'[i] == ws[i];
      NestIgnoresPopupWhenUnset(ws');
      assert Effective(ws[|ws| - 1], true) == Effective(ws[|ws| - 1], false);
    }
  }

  // ---------------------------------------------------------------------
  // Restoring saved values
  // ---------------------------------------------------------------------

  /** Outcome of looking one dotted path up in the saved data. `Throws` is
      the TypeError of `k in current` on a non-empty string. */
  datatype Lookup = Found(value: JVal) | Missing | Throws

  /** The inner restore loop: descend while the current value is truthy
      and has the key; a falsy value or a missing key ends the walk
      (`current = null`). Arrays are modelled as having no keys. */
  function Walk(cur: JVal, keys: Path): Lookup
    requires |keys| >= 1
    decreases |keys|
  {
    if !JsTruthy(cur) then Missing
    else match cur
      case JObj(fs) =>
        var c := Get(fs, keys[0]);
        if c.None? then Missing
        else if |keys| == 1 then Found(c.value)
        else Walk(c.value, keys[1..])
      case JStr(_) => Throws
      case _ => Missing
  }

  /** `o` is a non-empty string. */
  predicate IsText(o: Option<JVal>) {
    o.Some? && o.value.JStr? && o.value.str != ""
  }

  /** Some proper prefix of `keys` leads to a non-empty string. */
  predicate HitsText(cur: JVal, keys: Path) {
    exists k :: 0 <= k < |keys| && IsText(GetPath(cur, keys[..k]))
  }

  /** The walk finds exactly what `GetPath` reaches; otherwise it throws
      precisely when it meets a non-empty string on the way. */
  lemma {:induction false} WalkSpec(cur: JVal, keys: Path)
    requires |keys| >= 1
    ensures Walk(cur, keys)
      == if GetPath(cur, keys).Some? then Found(GetPath(cur, keys).value)
         else if HitsText(cur, keys) then Throws
         else Missing
    decreases |keys|
  {
    assert keys[..0] == [];
    if !cur.JObj? {
      forall k | 1 <= k < |keys| ensures GetPath(cur, keys[..k]) == None {
      }
      if cur.JStr? && cur.str != "" {
        assert IsText(GetPath(cur, keys[..0]));
      }
    } else {
      var c := Get(cur.fields, keys[0]);
      forall k | 1 <= k < |keys|
        ensures GetPath(cur, keys[..k]) == if c.None? then None else GetPath(c.value, keys[1..][..k - 1])
      {
        assert keys[..k][0] == keys[0] && keys[..k][1..] == keys[1..][..k - 1];
      }
      if c.Some? && |keys| > 1 {
        WalkSpec(c.value, keys[1..]);
        if HitsText(c.value, keys[1..]) {
          var k :| 0 <= k < |keys[1..]| && IsText(GetPath(c.value, keys[1..][..k]));
          assert IsText(GetPath(cur, keys[..k + 1]));
        }
        if HitsText(cur, keys) {
          var k :| 0 <= k < |keys| && IsText(GetPath(cur, keys[..k]));
          assert k >= 1;
          assert IsText(GetPath(c.value, keys[1..][..k - 1]));
        }
      }
    }
  }

  /** Restoring one freshly built widget from the saved data: a widget
      without a path is left alone, a found value replaces the widget's
      value, and `None` is the TypeError that aborts the rebuild. */
  function RestoreWidget(w: Widget, saved: JVal): (r: Option<Widget>)
    ensures r.Some? ==> r.value == w.(value := r.value.value)
  {
    if !HasPath(w) then Some(w)
    else match Walk(saved, Segments(w))
      case Found(v) => Some(w.(value := Some(v)))
      case Missing => Some(w)
      case Throws => None
  }

  /** The restore loop over all widgets, in order; the first TypeError
      aborts it. */
  function Restore(ws: seq<Widget>, saved: JVal): (r: Option<seq<Widget>>)
    ensures r.Some? <==> forall i :: 0 <= i < |ws| ==> RestoreWidget(ws[i], saved).Some?
    ensures r.Some? ==> |r.value| == |ws|
    ensures r.Some? ==> forall i :: 0 <= i < |ws| ==> RestoreWidget(ws[i], saved) == Some(r.value[i])
  {
    if |ws| == 0 then Some([])
    else
      var head := RestoreWidget(ws[0], saved);
      var tail := Restore(ws[1..], saved);
      if head.None? then None
      else if tail.None? then
        assert !RestoreWidget(ws[1..][0], saved).Some? ==> !RestoreWidget(ws[1], saved).Some?;
        None
      else Some([head.value] + tail.value)
  }

  /** The index of the first widget whose walk throws, which is where the
      restore loop stops. */
  function FirstThrow(ws: seq<Widget>, saved: JVal): (r: Option<nat>)
    ensures r.Some? ==> r.value < |ws| && RestoreWidget(ws[r.value], saved).None?
    ensures r.Some? ==> forall i :: 0 <= i < r.value ==> RestoreWidget(ws[i], saved).Some?
    ensures r.None? <==> Restore(ws, saved).Some?
  {
    if |ws| == 0 then None
    else if RestoreWidget(ws[0], saved).None? then Some(0)
    else
      var t := FirstThrow(ws[1..], saved);
      if t.None? then None else Some(t.value + 1)
  }

  /** The widgets as the loop leaves them when it throws at index `j`: the
      ones before `j` restored, the rest as they were (the throwing walk
      never reaches its assignment). */
  function RestoreUntil(ws: seq<Widget>, saved: JVal, j: nat): (r: seq<Widget>)
    requires j <= |ws| && forall i :: 0 <= i < j ==> RestoreWidget(ws[i], saved).Some?
    ensures |r| == |ws|
    ensures forall i :: 0 <= i < j ==> RestoreWidget(ws[i], saved) == Some(r[i])
    ensures forall i :: j <= i < |ws| ==> r[i] == ws[i]
  {
    Restore(ws[..j], saved).value + ws[j..]
  }

  /** `parsed.data || {}` for the node's stored JSON, where `None` is an
      absent property or a parse failure (both leave `{}`). */
  function SavedData(parsed: Option<JVal>): (r: JVal)
    ensures JsTruthy(r)
  {
    if parsed.Some? && parsed.value.JObj? && JsTruthyOpt(Get(parsed.value.fields, "data"))
    then Get(parsed.value.fields, "data").value
    else JObj([])
  }

  /** No contributing path of `ws` is a proper prefix of `p`. */
  predicate NoOldPathAbove(ws: seq<Widget>, p: Path) {
    forall j :: 0 <= j < |ws| && Contributes(ws[j], true) ==> !IsProperPrefix(Segments(ws[j]), p)
  }

  /** The built widgets' paths never pass through a value the old widgets
      stored: no old contributing path is a proper prefix of a new one. */
  predicate Compatible(ws: seq<Widget>, built: seq<Widget>) {
    forall i, j ::
      (0 <= i < |built| && HasPath(built[i]) && 0 <= j < |ws| && Contributes(ws[j], true))
          ==> !IsProperPrefix(Segments(ws[j]), Segments(built[i]))
  }

  /** Restoring one built widget from the document the old widgets saved. */
  lemma RestoreWidgetRoundTrip(ws: seq<Widget>, w: Widget)
    requires PrefixFree(ws, true)
    requires HasPath(w) ==> NoOldPathAbove(ws, Segments(w))
    ensures var r := RestoreWidget(w, BuildNestedObject(ws));
      && r.Some?
      && (HasPath(w) && IsContribPath(ws, true, Segments(w))
          ==> r.value.value == LastValueAt(ws, true, Segments(w)))
      && (HasPath(w) && BelowContribPath(ws, true, Segments(w))
          ==> r.value.value.Some? && r.value.value.value.JObj?)
      && (!HasPath(w) || UnrelatedToAll(ws, true, Segments(w)) ==> r.value == w)
  {
    if HasPath(w) {
      var doc := BuildNestedObject(ws);
      var p := Segments(w);
      NestSpec(ws, true, p);
      WalkSpec(doc, p);
      if IsContribPath(ws, true, p) {
        LastValueAtFound(ws, true, p);
      } else if !BelowContribPath(ws, true, p) {
        Classify(ws, true, p);
        assert UnrelatedToAll(ws, true, p);
        forall k | 0 <= k < |p| ensures !IsText(GetPath(doc, p[..k])) {
          if k > 0 {
            var r := p[..k];
            assert IsProperPrefix(r, p);
            NestSpec(ws, true, r);
            Classify(ws, true, r);
            forall j | 0 <= j < |ws| && Contributes(ws[j], true)
              ensures Segments(ws[j]) != r && !IsProperPrefix(Segments(ws[j]), r)
            {
              if IsPrefix(Segments(ws[j]), r) {
                PrefixTrans(Segments(ws[j]), r, p);
              }
            }
          }
        }
      }
    }
  }

  /** Saving then rebuilding: restoring built widgets from the document the
      old widgets serialised never throws, gives each built widget on an
      old contributing path the value its last old widget held, gives one
      strictly above an old path the mapping stored there, and leaves every
      other widget as built. */
  lemma RestoreRoundTrip(ws: seq<Widget>, built: seq<Widget>)
    requires PrefixFree(ws, true)
    requires Compatible(ws, built)
    ensures var r := Restore(built, BuildNestedObject(ws));
      && r.Some? && |r.value| == |built|
      && forall i :: 0 <= i < |built| ==>
           && r.value[i] == built[i].(value := r.value[i].value)
           && (HasPath(built[i]) && IsContribPath(ws, true, Segments(built[i]))
               ==> r.value[i].value == LastValueAt(ws, true, Segments(built[i])))
           && (HasPath(built[i]) && BelowContribPath(ws, true, Segments(built[i]))
               ==> r.value[i].value.Some? && r.value[i].value.value.JObj?)
           && (!HasPath(built[i]) || UnrelatedToAll(ws, true, Segments(built[i]))
               ==> r.value[i] == built[i])
  {
    var doc := BuildNestedObject(ws);
    forall i | 0 <= i < |built|
      ensures var r := RestoreWidget(built[i], doc);
        && r.Some?
        && (HasPath(built[i]) && IsContribPath(ws, true, Segments(built[i]))
            ==> r.value.value == LastValueAt(ws, true, Segments(built[i])))
        && (HasPath(built[i]) && BelowContribPath(ws, true, Segments(built[i]))
            ==> r.value.value.Some? && r.value.value.value.JObj?)
        && (!HasPath(built[i]) || UnrelatedToAll(ws, true, Segments(built[i])) ==> r.value == built[i])
    {
      RestoreWidgetRoundTrip(ws, built[i]);
    }
  }
}
