/** What the transform does, stated without the Go code's right-to-left index
    arithmetic: a left-to-right reference that replaces markers by groups, and
    the theorems that tie `Transform.Expand` and `Transform.TransformSpec` to it,
    for as many, fewer and more list arguments than markers. */
module Markers {
  import opened Base
  import opened GoStrings
  import opened Transform

  // ----- the reference definition -----

  /** Scans `q` from offset `p` left to right and replaces each marker by the
      next of `groups`; once the groups run out, the rest is copied as it is. */
  function ReplaceFrom(q: string, p: nat, groups: seq<string>): string
    decreases |q| - p
  {
    if p >= |q| then []
    else if MarkerAt(q, p) && groups != [] then groups[0] + ReplaceFrom(q, p + 3, groups[1..])
    else [q[p]] + ReplaceFrom(q, p + 1, groups)
  }

  /** The `k`-th marker of `q` replaced by `groups[k]`, for every `k` there is
      a group for. */
  function ReplaceMarkers(q: string, groups: seq<string>): string
  {
    ReplaceFrom(q, 0, groups)
  }

  /** The number of markers in `q`. */
  function MarkerCount(q: string): nat
  {
    |MarkerIndices(q)|
  }

  /** The offset of the `k`-th marker of `q`, counting from 0 at the left. */
  function NthMarker(q: string, k: nat): (j: nat)
    requires k < MarkerCount(q)
    ensures MarkerAt(q, j)
  {
    MarkerIndicesExact(q);
    var d := MarkerIndices(q);
    d[|d| - 1 - k]
  }

  /** Each group followed by the same `tail`. */
  function Repeated(groups: seq<string>, tail: string): string
  {
    if groups == [] then "" else groups[0] + tail + Repeated(groups[1..], tail)
  }

  // ----- facts about the reference -----

  /** With no groups left, the scan copies the rest of the text. */
  lemma {:induction false} ReplaceFromNone(q: string, p: nat)
    requires p <= |q|
    ensures ReplaceFrom(q, p, []) == q[p..]
    decreases |q| - p
  {
    if p < |q| {
      ReplaceFromNone(q, p + 1);
      assert q[p..] == [q[p]] + q[p + 1..];
    }
  }

  /** Text without markers is copied as it is. */
  lemma {:induction false} ReplaceFromSkip(q: string, p: nat, k: nat, groups: seq<string>)
    requires p <= k <= |q|
    requires forall j :: p <= j < k ==> !MarkerAt(q, j)
    ensures ReplaceFrom(q, p, groups) == q[p..k] + ReplaceFrom(q, k, groups)
    decreases k - p
  {
    if p < k {
      assert !MarkerAt(q, p);
      assert ReplaceFrom(q, p, groups) == [q[p]] + ReplaceFrom(q, p + 1, groups);
      ReplaceFromSkip(q, p + 1, k, groups);
      assert q[p..k] == [q[p]] + q[p + 1..k];
      Assoc([q[p]], q[p + 1..k], ReplaceFrom(q, k, groups));
    }
  }

  /** Without any marker the reference leaves the text as it is. */
  lemma ReplaceMarkersNoMarker(q: string, groups: seq<string>)
    requires forall j :: !MarkerAt(q, j)
    ensures ReplaceMarkers(q, groups) == q
  {
    ReplaceFromSkip(q, 0, |q|, groups);
    ReplaceFromNone(q, |q|);
  }

  // ----- facts about the expansion -----

  /** Arguments without lists add no text. */
  lemma {:induction false} ExpandFromNoLists<V>(q: string, d: seq<nat>, args: seq<Arg<V>>, li: int)
    requires Spaced(q, d) && 0 < |d| && li <= |d|
    requires ListCount(args) == 0
    ensures ExpandFrom(q, d, args, li) == ""
    decreases |args|
  {
    if args != [] {
      ExpandFromNoLists(q, d, args[1..], li);
    }
  }

  /** Once every marker is consumed, each further list emits its group and
      then the tail after the last marker again. */
  lemma {:induction false} ExpandFromPastLast<V>(q: string, d: seq<nat>, args: seq<Arg<V>>, li: int)
    requires Spaced(q, d) && 0 < |d| && li <= 0
    ensures ExpandFrom(q, d, args, li) == Repeated(Groups(args), q[d[0] + 3..])
    decreases |args|
  {
    if args != [] {
      ExpandFromPastLast(q, d, args[1..], if args[0].List? then li - 1 else li);
    }
  }

  /** The expansion of a concatenation of argument lists. */
  lemma {:induction false} ExpandFromConcat<V>(q: string, d: seq<nat>, a: seq<Arg<V>>, b: seq<Arg<V>>, li: int)
    requires Spaced(q, d) && 0 < |d| && li <= |d|
    ensures ExpandFrom(q, d, a + b, li) == ExpandFrom(q, d, a, li) + ExpandFrom(q, d, b, li - ListCount(a))
    decreases |a|
  {
    if a == [] {
      assert a + b == b;
    } else {
      assert (a + b)[0] == a[0] && (a + b)[1..] == a[1..] + b;
      var li' := if a[0].List? then li - 1 else li;
      ExpandFromConcat(q, d, a[1..], b, li');
      var e1 := ExpandFrom(q, d, a[1..], li');
      var e2 := ExpandFrom(q, d, b, li' - ListCount(a[1..]));
      assert ExpandFrom(q, d, a[1..] + b, li') == e1 + e2;
      if a[0].List? {
        var g := Group(|a[0].items|) + Segment(q, d, li - 1);
        assert ExpandFrom(q, d, a + b, li) == g + ExpandFrom(q, d, a[1..] + b, li');
        assert ExpandFrom(q, d, a, li) == g + e1;
        Assoc(g, e1, e2);
      } else {
        assert ExpandFrom(q, d, a + b, li) == ExpandFrom(q, d, a[1..] + b, li');
        assert ExpandFrom(q, d, a, li) == e1;
      }
    }
  }

  /** Between the marker at `d[li - 1]` and the next one there is none. */
  lemma NoMarkerBetween(q: string, d: seq<nat>, li: int)
    requires AllMarkers(q, d) && 2 <= li <= |d|
    ensures d[li - 1] + 3 <= d[li - 2]
    ensures forall j :: d[li - 1] + 3 <= j < d[li - 2] ==> !MarkerAt(q, j)
  {
    forall j | d[li - 1] + 3 <= j < d[li - 2] ensures !MarkerAt(q, j) {
      forall t | 0 <= t < |d| ensures d[t] != j {
        if t >= li - 1 {
          assert d[t] <= d[li - 1];
        } else {
          assert d[li - 2] <= d[t];
        }
      }
      assert j !in d;
    }
  }

  /** Before the leftmost marker there is none. */
  lemma NoMarkerBefore(q: string, d: seq<nat>)
    requires AllMarkers(q, d) && d != []
    ensures forall j :: 0 <= j < d[|d| - 1] ==> !MarkerAt(q, j)
  {
    forall j | 0 <= j < d[|d| - 1] ensures !MarkerAt(q, j) {
      forall t | 0 <= t < |d| ensures d[t] != j {
        assert d[|d| - 1] <= d[t];
      }
      assert j !in d;
    }
  }

  /** The text from the marker `d[li - 1 - k]` on, when `k < li`; otherwise none. */
  function Unconsumed(q: string, d: seq<nat>, li: int, k: nat): string
    requires Spaced(q, d) && 1 <= li <= |d|
  {
    if k < li then q[d[li - 1 - k]..] else ""
  }

  /** The core of the correspondence: scanning from the marker at `d[li - 1]`
      with the groups of `args` gives the expansion of `args`, followed by the
      text from the first marker no list is left for. */
  lemma ReplaceFromExpand<V>(q: string, d: seq<nat>, args: seq<Arg<V>>, li: int)
    requires AllMarkers(q, d) && 1 <= li <= |d|
    requires ListCount(args) <= li
    ensures ReplaceFrom(q, d[li - 1], Groups(args)) ==
      ExpandFrom(q, d, args, li) + Unconsumed(q, d, li, ListCount(args))
  {
    AllMarkersChain(q, d, li);
    ReplaceFromChain(q, d, args, li);
  }

  /** No marker starts in `[a, b)`. */
  ghost predicate NoMarkerIn(q: string, a: int, b: int) {
    forall j :: a <= j < b ==> !MarkerAt(q, j)
  }

  /** `d[li - 1], ..., d[0]` are markers, with none between two consecutive ones. */
  ghost predicate Chain(q: string, d: seq<nat>, li: int)
    requires Spaced(q, d) && 0 <= li <= |d|
    decreases li
  {
    li == 0 ||
    (MarkerAt(q, d[li - 1]) &&
     (li >= 2 ==> NoMarkerIn(q, d[li - 1] + 3, d[li - 2])) &&
     Chain(q, d, li - 1))
  }

  /** The offsets of all the markers form a chain. */
  lemma {:induction false} AllMarkersChain(q: string, d: seq<nat>, li: int)
    requires AllMarkers(q, d) && 0 <= li <= |d|
    ensures Chain(q, d, li)
    decreases li
  {
    if li > 0 {
      AllMarkersChain(q, d, li - 1);
      if li >= 2 {
        NoMarkerBetween(q, d, li);
      }
    }
  }

  /** `ReplaceFromExpand` by induction on the arguments, from the chain of
      markers `d[li - 1], ..., d[0]`. */
  lemma {:induction false} ReplaceFromChain<V>(q: string, d: seq<nat>, args: seq<Arg<V>>, li: int)
    requires Spaced(q, d) && 1 <= li <= |d| && Chain(q, d, li)
    requires ListCount(args) <= li
    ensures ReplaceFrom(q, d[li - 1], Groups(args)) ==
      ExpandFrom(q, d, args, li) + Unconsumed(q, d, li, ListCount(args))
    decreases |args|, 1
  {
    if args == [] {
      ReplaceFromExpandEmpty<V>(q, d, li);
    } else if args[0].Scalar? {
      ReplaceFromExpandScalar(q, d, args, li);
    } else if li > 1 {
      ReplaceFromExpandListRec(q, d, args, li);
    } else {
      ReplaceFromExpandLast(q, d, args);
    }
  }

  /** `ReplaceFromExpand` for a leading scalar, from the arguments after it. */
  lemma {:induction false} ReplaceFromExpandScalar<V>(q: string, d: seq<nat>, args: seq<Arg<V>>, li: int)
    requires Spaced(q, d) && 1 <= li <= |d| && Chain(q, d, li)
    requires args != [] && args[0].Scalar? && ListCount(args) <= li
    ensures ReplaceFrom(q, d[li - 1], Groups(args)) ==
      ExpandFrom(q, d, args, li) + Unconsumed(q, d, li, ListCount(args))
    decreases |args|, 0
  {
    ScalarArgument(q, d, args, li);
    ReplaceFromChain(q, d, args[1..], li);
  }

  /** `ReplaceFromExpand` for a leading list with a further marker after its
      own: the fact for the arguments after it, handed to the list step. */
  lemma {:induction false} ReplaceFromExpandListRec<V>(q: string, d: seq<nat>, args: seq<Arg<V>>, li: int)
    requires Spaced(q, d) && 2 <= li <= |d| && Chain(q, d, li)
    requires args != [] && args[0].List? && ListCount(args) <= li
    ensures ReplaceFrom(q, d[li - 1], Groups(args)) ==
      ExpandFrom(q, d, args, li) + Unconsumed(q, d, li, ListCount(args))
    decreases |args|, 0
  {
    ListArgumentGroups(args);
    ReplaceFromChain(q, d, args[1..], li - 1);
    ReplaceFromExpandList(q, d, args, li);
  }

  /** `ReplaceFromExpand` for a leading list with a further marker after its
      own, from the fact for the arguments after it. */
  lemma ReplaceFromExpandList<V>(q: string, d: seq<nat>, args: seq<Arg<V>>, li: int)
    requires Spaced(q, d) && 2 <= li <= |d| && Chain(q, d, li)
    requires args != [] && args[0].List? && ListCount(args) <= li
    requires ReplaceFrom(q, d[li - 2], Groups(args[1..])) ==
      ExpandFrom(q, d, args[1..], li - 1) + Unconsumed(q, d, li - 1, ListCount(args[1..]))
    ensures ReplaceFrom(q, d[li - 1], Groups(args)) ==
      ExpandFrom(q, d, args, li) + Unconsumed(q, d, li, ListCount(args))
  {
    SkipBetween(q, d, li, Groups(args[1..]));
    ReplaceFromExpandStep(q, d, args, li);
  }

  /** The text between two consecutive markers is copied by the scan. */
  lemma SkipBetween(q: string, d: seq<nat>, li: int, groups: seq<string>)
    requires Spaced(q, d) && 2 <= li <= |d| && Chain(q, d, li)
    ensures d[li - 1] + 3 <= d[li - 2] <= |q|
    ensures ReplaceFrom(q, d[li - 1] + 3, groups) ==
      q[d[li - 1] + 3..d[li - 2]] + ReplaceFrom(q, d[li - 2], groups)
  {
    assert NoMarkerIn(q, d[li - 1] + 3, d[li - 2]);
    ReplaceFromSkip(q, d[li - 1] + 3, d[li - 2], groups);
  }

  /** `ReplaceFromExpand` without arguments: the text from the marker on. */
  lemma ReplaceFromExpandEmpty<V>(q: string, d: seq<nat>, li: int)
    requires Spaced(q, d) && 1 <= li <= |d|
    ensures ReplaceFrom(q, d[li - 1], Groups<V>([])) ==
      ExpandFrom<V>(q, d, [], li) + Unconsumed(q, d, li, ListCount<V>([]))
  {
    var p := d[li - 1];
    ReplaceFromNone(q, p);
    assert Groups<V>([]) == [] && ListCount<V>([]) == 0 && ExpandFrom<V>(q, d, [], li) == "";
    assert Unconsumed(q, d, li, 0) == q[p..];
    assert "" + q[p..] == q[p..];
  }

  /** The step of `ReplaceFromExpand` for a list argument that is not the last
      one a marker is left for, from the fact for the arguments after it. */
  lemma ReplaceFromExpandStep<V>(q: string, d: seq<nat>, args: seq<Arg<V>>, li: int)
    requires Spaced(q, d) && 2 <= li <= |d| && MarkerAt(q, d[li - 1]) && d[li - 1] + 3 <= d[li - 2]
    requires args != [] && args[0].List? && ListCount(args) <= li
    requires ReplaceFrom(q, d[li - 1] + 3, Groups(args[1..])) ==
      q[d[li - 1] + 3..d[li - 2]] + ReplaceFrom(q, d[li - 2], Groups(args[1..]))
    requires ReplaceFrom(q, d[li - 2], Groups(args[1..])) ==
      ExpandFrom(q, d, args[1..], li - 1) + Unconsumed(q, d, li - 1, ListCount(args[1..]))
    ensures ReplaceFrom(q, d[li - 1], Groups(args)) ==
      ExpandFrom(q, d, args, li) + Unconsumed(q, d, li, ListCount(args))
  {
    var rest := args[1..];
    var g := Group(|args[0].items|);
    var gs := Groups(rest);
    var seg := Segment(q, d, li - 1);
    var more := ExpandFrom(q, d, rest, li - 1);
    var u := Unconsumed(q, d, li, ListCount(args));
    ListArgumentGroups(args);
    ListArgumentExpand(q, d, args, li);
    UnconsumedStep(q, d, li, ListCount(args));
    assert Groups(args)[0] == g && Groups(args)[1..] == gs;
    ReplaceFromAtMarker(q, d[li - 1], Groups(args));
    assert ReplaceFrom(q, d[li - 1], Groups(args)) == g + (seg + (more + u));
    Assoc(seg, more, u);
    Assoc(g, seg + more, u);
    Assoc(g, seg, more);
  }

  /** A marker with a group left for it is replaced by that group. */
  lemma ReplaceFromAtMarker(q: string, p: nat, groups: seq<string>)
    requires MarkerAt(q, p) && groups != []
    ensures ReplaceFrom(q, p, groups) == groups[0] + ReplaceFrom(q, p + 3, groups[1..])
  {
  }

  /** Consuming one marker leaves the same text unconsumed. */
  lemma UnconsumedStep(q: string, d: seq<nat>, li: int, k: nat)
    requires Spaced(q, d) && 2 <= li <= |d| && 1 <= k
    ensures Unconsumed(q, d, li - 1, k - 1) == Unconsumed(q, d, li, k)
  {
  }

  /** The step of `ReplaceFromExpand` for the list argument that consumes the
      leftmost marker left: the rest of the text follows its group. */
  lemma ReplaceFromExpandLast<V>(q: string, d: seq<nat>, args: seq<Arg<V>>)
    requires Spaced(q, d) && 1 <= |d| && Chain(q, d, 1)
    requires args != [] && args[0].List? && ListCount(args) <= 1
    ensures ReplaceFrom(q, d[0], Groups(args)) ==
      ExpandFrom(q, d, args, 1) + Unconsumed(q, d, 1, ListCount(args))
  {
    var rest := args[1..];
    var g := Group(|args[0].items|);
    var gs := Groups(rest);
    assert Groups(args) == [g] + gs;
    assert MarkerAt(q, d[0]);
    var start := d[0] + 3;
    ExpandFromNoLists(q, d, rest, 0);
    calc {
      ReplaceFrom(q, d[0], Groups(args));
      g + ReplaceFrom(q, start, gs);
      { ReplaceFromNone(q, start); }
      g + q[start..];
      ExpandFrom(q, d, args, 1) + Unconsumed(q, d, 1, ListCount(args));
    }
  }

  // ----- the transform against the reference -----

  /** With `k` list arguments and at least `k` markers, the expanded query
      followed by the text from marker `k` on is the query with its first `k`
      markers replaced by the groups of the lists, in argument order. */
  lemma ExpandAgainstReference<V>(q: string, args: Slice<Arg<V>>)
    requires 0 < MarkerCount(q) && ListCount(args.Elems()) <= MarkerCount(q)
    ensures var k := ListCount(args.Elems());
      ReplaceMarkers(q, Groups(args.Elems())) ==
        Expand(q, args).0 + (if k < MarkerCount(q) then q[NthMarker(q, k)..] else "")
  {
    var d := MarkerIndices(q);
    var n := |d|;
    var argv := args.Elems();
    var k := ListCount(argv);
    MarkerIndicesExact(q);
    NoMarkerBefore(q, d);
    var pre := q[..d[n - 1]];
    var e := ExpandFrom(q, d, argv, n);
    var u := Unconsumed(q, d, n, k);
    assert Expand(q, args).0 == pre + e;
    assert u == if k < MarkerCount(q) then q[NthMarker(q, k)..] else "";
    calc {
      ReplaceMarkers(q, Groups(argv));
      { ReplaceFromSkip(q, 0, d[n - 1], Groups(argv)); }
      pre + ReplaceFrom(q, d[n - 1], Groups(argv));
      { ReplaceFromExpand(q, d, argv, n); }
      pre + (e + u);
      { Assoc(pre, e, u); }
      pre + e + u;
    }
  }

  /** As many lists as markers: every marker is replaced by the group of its
      list, all other text is kept, and the arguments are flattened. */
  lemma ExpandMatched<V>(q: string, args: Slice<Arg<V>>)
    requires 0 < MarkerCount(q) && ListCount(args.Elems()) == MarkerCount(q)
    ensures Expand(q, args) == (ReplaceMarkers(q, Groups(args.Elems())), Slice(Flatten(args.Elems())))
  {
    ExpandAgainstReference(q, args);
    assert Expand(q, args).0 + "" == Expand(q, args).0;
  }

  /** Fewer lists than markers (`k` of them): the output stops right before
      marker `k`, so the literal text from there on is dropped. */
  lemma ExpandFewerLists<V>(q: string, args: Slice<Arg<V>>)
    requires ListCount(args.Elems()) < MarkerCount(q)
    ensures Expand(q, args).0 + q[NthMarker(q, ListCount(args.Elems()))..] ==
      ReplaceMarkers(q, Groups(args.Elems()))
  {
    ExpandAgainstReference(q, args);
  }

  /** Markers but no list at all: the query shrinks to the text before the
      first marker and the argument list becomes a non-nil copy of the
      scalars (an empty one for a nil argument list). */
  lemma ExpandNoLists<V>(q: string, args: Slice<Arg<V>>)
    requires 0 < MarkerCount(q) && ListCount(args.Elems()) == 0
    ensures Expand(q, args) == (q[..NthMarker(q, 0)], Slice(args.Elems()))
  {
    var d := MarkerIndices(q);
    MarkerIndicesExact(q);
    ExpandFromNoLists(q, d, args.Elems(), |d|);
    FlattenScalars(args.Elems());
    assert NthMarker(q, 0) == d[|d| - 1];
    assert q[..d[|d| - 1]] + "" == q[..d[|d| - 1]];
  }

  /** More lists than markers: after the first `MarkerCount(q)` lists have
      consumed every marker, each further list emits its group followed by
      the tail after the last marker again. */
  lemma ExpandExtraLists<V>(q: string, a: seq<Arg<V>>, b: seq<Arg<V>>)
    requires 0 < MarkerCount(q) && ListCount(a) == MarkerCount(q)
    ensures Expand(q, Slice(a + b)).0 ==
      ReplaceMarkers(q, Groups(a)) + Repeated(Groups(b), q[NthMarker(q, MarkerCount(q) - 1) + 3..])
  {
    var d := MarkerIndices(q);
    MarkerIndicesExact(q);
    ExpandFromConcat(q, d, a, b, |d|);
    ExpandFromPastLast(q, d, b, 0);
    ExpandMatched(q, Slice(a));
    Assoc(q[..d[|d| - 1]], ExpandFrom(q, d, a, |d|), ExpandFrom(q, d, b, 0));
  }

  /** No marker: query and arguments are returned as given (a nil argument
      list stays nil); PostgreSQL still renumbers the `?` of the query. */
  lemma TransformNoMarker<V>(q: string, args: Slice<Arg<V>>)
    requires forall j :: !MarkerAt(q, j)
    ensures TransformSpec(q, args, false) == (q, args)
    ensures TransformSpec(q, args, true) == (Number(q, 1), args)
  {
    assert LastMarker(q) == -1;
  }

  /** PostgreSQL output is the MySQL output with its `?` renumbered, and both
      dialects produce the same argument list. */
  lemma DialectsAgree<V>(q: string, args: Slice<Arg<V>>)
    ensures TransformSpec(q, args, true).0 == Number(TransformSpec(q, args, false).0, 1)
    ensures TransformSpec(q, args, true).1 == TransformSpec(q, args, false).1
  {
  }

  // ----- the pieces -----

  /** A non-empty list yields `(` + its placeholders + `)`; an empty one
      keeps the marker. */
  lemma GroupShape(l: nat)
    ensures l == 0 ==> Group(l) == "(?)"
    ensures l > 0 ==> Group(l) == "(" + Placeholders(l) + ")"
  {
    if l > 0 {
      RepeatPlaceholders(l);
    }
  }

  lemma {:induction false} RepeatPlaceholders(l: nat)
    requires l >= 1
    ensures Repeat("?,", l)[..l * 2 - 1] == Placeholders(l)
  {
    if l > 1 {
      RepeatPlaceholders(l - 1);
      var r := Repeat("?,", l - 1);
      assert Repeat("?,", l) == r + "?,";
      assert r == Repeat("?,", l - 2) + "?,";
      assert r == r[..(l - 1) * 2 - 1] + ",";
      assert Repeat("?,", l)[..l * 2 - 1] == r + "?";
    }
  }

  /** `l` placeholders hold `l` question marks and `l - 1` commas. */
  lemma {:induction false} PlaceholdersCount(l: nat)
    requires l >= 1
    ensures Count(Placeholders(l), '?') == l
    ensures Count(Placeholders(l), ',') == l - 1
    ensures |Placeholders(l)| == 2 * l - 1
  {
    if l > 1 {
      PlaceholdersCount(l - 1);
      CountConcat(Placeholders(l - 1), ",?", '?');
      CountConcat(Placeholders(l - 1), ",?", ',');
    }
  }

  /** A group holds one `?` per list element, and one for an empty list. */
  lemma GroupCount(l: nat)
    ensures Count(Group(l), '?') == if l == 0 then 1 else l
  {
    GroupShape(l);
    if l > 0 {
      PlaceholdersCount(l);
      CountConcat("(" + Placeholders(l), ")", '?');
      CountConcat("(", Placeholders(l), '?');
      assert Count("(", '?') == 0 by { assert "("[1..] == []; }
      assert Count(")", '?') == 0 by { assert ")"[1..] == []; }
    } else {
      assert "(?)"[1..] == "?)" && "?)"[1..] == ")" && ")"[1..] == [];
    }
  }

  /** The flattened list holds every scalar and every list element. */
  lemma {:induction false} FlattenLength<V>(args: seq<Arg<V>>)
    ensures |Flatten(args)| == ValueCount(args)
  {
    if args != [] {
      FlattenLength(args[1..]);
    }
  }

  lemma {:induction false} FlattenConcat<V>(a: seq<Arg<V>>, b: seq<Arg<V>>)
    ensures Flatten(a + b) == Flatten(a) + Flatten(b)
  {
    if a == [] {
      assert a + b == b;
    } else {
      assert (a + b)[0] == a[0] && (a + b)[1..] == a[1..] + b;
      FlattenConcat(a[1..], b);
      Assoc(if a[0].List? then Lift(a[0].items) else [a[0]], Flatten(a[1..]), Flatten(b));
    }
  }

  /** A list argument contributes its elements in order, exactly where it
      stood; the arguments around it keep their places. */
  lemma FlattenSplice<V>(a: seq<Arg<V>>, items: seq<V>, b: seq<Arg<V>>)
    ensures Flatten(a + [List(items)] + b) == Flatten(a) + Lift(items) + Flatten(b)
  {
    FlattenConcat(a + [List(items)], b);
    FlattenConcat(a, [List(items)]);
    assert [List(items)][1..] == [];
    assert Flatten([List(items)]) == Lift(items) + Flatten([]);
    assert Lift(items) + [] == Lift(items);
  }

  /** Scalars only: the flattened list is the list itself. */
  lemma {:induction false} FlattenScalars<V>(args: seq<Arg<V>>)
    requires ListCount(args) == 0
    ensures Flatten(args) == args
  {
    if args != [] {
      FlattenScalars(args[1..]);
      assert args == [args[0]] + args[1..];
    }
  }

  // ----- placeholders against arguments -----

  /** How many arguments are scalars. */
  function ScalarCount<V>(args: seq<Arg<V>>): nat
  {
    if args == [] then 0
    else (if args[0].Scalar? then 1 else 0) + ScalarCount(args[1..])
  }

  /** No list argument is empty. */
  ghost predicate NoEmptyList<V>(args: seq<Arg<V>>) {
    forall i :: 0 <= i < |args| && args[i].List? ==> args[i].items != []
  }

  /** The `?` the groups hold, all together. */
  function GroupsQuestions(groups: seq<string>): nat
  {
    if groups == [] then 0 else Count(groups[0], '?') + GroupsQuestions(groups[1..])
  }

  /** How many of `groups` the scan from `p` puts in place of a marker. */
  function Used(q: string, p: nat, groups: seq<string>): nat
    decreases |q| - p
  {
    if p >= |q| then 0
    else if MarkerAt(q, p) && groups != [] then 1 + Used(q, p + 3, groups[1..])
    else Used(q, p + 1, groups)
  }

  /** The `?` held by the groups the scan from `p` puts in. */
  function UsedQuestions(q: string, p: nat, groups: seq<string>): nat
    decreases |q| - p
  {
    if p >= |q| then 0
    else if MarkerAt(q, p) && groups != [] then Count(groups[0], '?') + UsedQuestions(q, p + 3, groups[1..])
    else UsedQuestions(q, p + 1, groups)
  }

  /** Each marker the scan replaces trades its one `?` for the `?` of its group. */
  lemma {:induction false} ReplaceFromQuestions(q: string, p: nat, groups: seq<string>)
    requires p <= |q|
    ensures Count(ReplaceFrom(q, p, groups), '?') + Used(q, p, groups) ==
      Count(q[p..], '?') + UsedQuestions(q, p, groups)
    decreases |q| - p
  {
    if p == |q| {
      assert q[p..] == [];
    } else if MarkerAt(q, p) && groups != [] {
      ReplaceFromQuestions(q, p + 3, groups[1..]);
      CountConcat(groups[0], ReplaceFrom(q, p + 3, groups[1..]), '?');
      CountMarkerSplit(q, p);
    } else {
      ReplaceFromQuestions(q, p + 1, groups);
      CountConcat([q[p]], ReplaceFrom(q, p + 1, groups), '?');
      CountHeadSplit(q, p);
    }
  }

  /** The `?` from a marker on: the marker's one and those after it. */
  lemma CountMarkerSplit(q: string, p: nat)
    requires MarkerAt(q, p)
    ensures Count(q[p..], '?') == 1 + Count(q[p + 3..], '?')
  {
    assert q[p..] == q[p..p + 3] + q[p + 3..];
    CountConcat(q[p..p + 3], q[p + 3..], '?');
    MarkerQuestion(q[p..p + 3]);
  }

  /** The `?` from `p` on: the character at `p`, then the rest. */
  lemma CountHeadSplit(q: string, p: nat)
    requires p < |q|
    ensures Count(q[p..], '?') == Count([q[p]], '?') + Count(q[p + 1..], '?')
  {
    assert q[p..] == [q[p]] + q[p + 1..];
    CountConcat([q[p]], q[p + 1..], '?');
  }

  /** A marker holds one `?`. */
  lemma MarkerQuestion(m: string)
    requires MarkerAt(m, 0) && |m| == 3
    ensures Count(m, '?') == 1
  {
    assert m[1..][1..][1..] == [];
    assert Count(m[1..][1..], '?') == 0;
    assert Count(m[1..], '?') == 1;
  }

  /** With no groups the scan uses none. */
  lemma {:induction false} UsedNone(q: string, p: nat)
    ensures Used(q, p, []) == 0
    decreases |q| - p
  {
    if p < |q| {
      UsedNone(q, p + 1);
    }
  }

  /** Text without markers uses no group. */
  lemma {:induction false} UsedSkip(q: string, p: nat, k: nat, groups: seq<string>)
    requires p <= k <= |q| && NoMarkerIn(q, p, k)
    ensures Used(q, p, groups) == Used(q, k, groups)
    decreases k - p
  {
    if p < k {
      assert !MarkerAt(q, p);
      UsedSkip(q, p + 1, k, groups);
    }
  }

  /** From the marker `d[li - 1]` on, the chain of markers uses every group,
      as long as there are no more groups than markers. */
  lemma {:induction false} UsedAll(q: string, d: seq<nat>, li: int, groups: seq<string>)
    requires Spaced(q, d) && 1 <= li <= |d| && Chain(q, d, li) && |groups| <= li
    ensures Used(q, d[li - 1], groups) == |groups|
    decreases li
  {
    var p := d[li - 1];
    if groups == [] {
      UsedNone(q, p);
    } else {
      assert MarkerAt(q, p);
      assert Used(q, p, groups) == 1 + Used(q, p + 3, groups[1..]);
      if |groups| == 1 {
        UsedNone(q, p + 3);
      } else {
        assert NoMarkerIn(q, p + 3, d[li - 2]) && Chain(q, d, li - 1);
        UsedSkip(q, p + 3, d[li - 2], groups[1..]);
        UsedAll(q, d, li - 1, groups[1..]);
      }
    }
  }

  /** When the scan uses every group it puts in all their `?`. */
  lemma {:induction false} UsedQuestionsAll(q: string, p: nat, groups: seq<string>)
    requires Used(q, p, groups) == |groups|
    ensures UsedQuestions(q, p, groups) == GroupsQuestions(groups)
    decreases |q| - p
  {
    if p < |q| {
      if MarkerAt(q, p) && groups != [] {
        UsedQuestionsAll(q, p + 3, groups[1..]);
      } else {
        UsedQuestionsAll(q, p + 1, groups);
      }
    }
  }

  /** Without empty lists, the groups hold one `?` per list element. */
  lemma {:induction false} GroupsQuestionsArgs<V>(args: seq<Arg<V>>)
    requires NoEmptyList(args)
    ensures GroupsQuestions(Groups(args)) + ScalarCount(args) == ValueCount(args)
  {
    if args != [] {
      var rest := args[1..];
      forall i | 0 <= i < |rest| && rest[i].List? ensures rest[i].items != [] {
        assert rest[i] == args[i + 1];
      }
      GroupsQuestionsArgs(rest);
      if args[0].List? {
        var g := Group(|args[0].items|);
        GroupCount(|args[0].items|);
        assert Groups(args) == [g] + Groups(rest);
        assert ([g] + Groups(rest))[1..] == Groups(rest);
      }
    }
  }

  /** Well-formed input (as many lists as markers, no empty list, and one `?`
      per scalar besides the markers' own): the output query holds exactly
      one `?` per output argument. */
  lemma ExpandPlaceholderCount<V>(q: string, args: Slice<Arg<V>>)
    requires 0 < MarkerCount(q) && ListCount(args.Elems()) == MarkerCount(q)
    requires NoEmptyList(args.Elems())
    requires Count(q, '?') == MarkerCount(q) + ScalarCount(args.Elems())
    ensures Count(Expand(q, args).0, '?') == |Expand(q, args).1.Elems()|
  {
    var argv := args.Elems();
    var gs := Groups(argv);
    var d := MarkerIndices(q);
    var n := |d|;
    ExpandMatched(q, args);
    MarkerIndicesExact(q);
    NoMarkerBefore(q, d);
    AllMarkersChain(q, d, n);
    assert NoMarkerIn(q, 0, d[n - 1]);
    UsedSkip(q, 0, d[n - 1], gs);
    UsedAll(q, d, n, gs);
    ReplaceFromQuestions(q, 0, gs);
    assert q[0..] == q;
    UsedQuestionsAll(q, 0, gs);
    GroupsQuestionsArgs(argv);
    FlattenLength(argv);
  }

  // ----- renumbering -----

  /** Renumbering replaces the `?` of `s`, left to right, by `$k`, `$k+1`, ...:
      a `?` at offset `j` becomes the number `k` plus the count of `?` before it. */
  lemma NumberAt(s: string, k: nat, j: nat)
    requires j < |s| && s[j] == '?'
    ensures Number(s, k) ==
      Number(s[..j], k) + "$" + Itoa(k + Count(s[..j], '?')) + Number(s[j + 1..], k + Count(s[..j], '?') + 1)
  {
    assert s == s[..j] + ([s[j]] + s[j + 1..]);
    NumberConcat(s[..j], [s[j]] + s[j + 1..], k);
  }
}
