/** The query/argument transform of `DB.transform` (sqlpp.go): expansion of
    every `(?)` marker that is paired with a list argument into one `?` per
    element, flattening of the argument list, and, for PostgreSQL, renumbering
    of every `?` as `$1, $2, ...`.

    The functions here are the specification; the method `Transform` is the
    Go code's two loops and its renumbering loop, proved to compute them. */
module Transform {
  import opened Base
  import opened GoStrings

  /** An argument as the transform sees it through reflection: an array or
      slice value is a `List` of its elements, anything else a `Scalar`. */
  datatype Arg<V> = Scalar(value: V) | List(items: seq<V>)

  /** The elements of a list argument, each as an argument of its own. */
  function Lift<V>(items: seq<V>): (r: seq<Arg<V>>)
    ensures |r| == |items|
  {
    seq(|items|, j requires 0 <= j < |items| => Scalar(items[j]))
  }

  /** The argument list the transform builds when the query has markers:
      scalars in place, each list replaced by its elements in order. */
  function Flatten<V>(args: seq<Arg<V>>): seq<Arg<V>>
  {
    if args == [] then []
    else match args[0]
      case Scalar(_) => [args[0]] + Flatten(args[1..])
      case List(items) => Lift(items) + Flatten(args[1..])
  }

  /** How many list arguments there are. */
  function ListCount<V>(args: seq<Arg<V>>): nat
  {
    if args == [] then 0
    else (if args[0].List? then 1 else 0) + ListCount(args[1..])
  }

  /** The number of scalars plus the number of list elements. */
  function ValueCount<V>(args: seq<Arg<V>>): nat
  {
    if args == [] then 0
    else (if args[0].List? then |args[0].items| else 1) + ValueCount(args[1..])
  }

  /** The text a list of `l` elements puts in place of its marker, as the Go
      code builds it: `(?)` for an empty list, otherwise `(` followed by the
      first `2l - 1` characters of `?,` repeated `l` times, then `)`. */
  function Group(l: nat): string
  {
    if l == 0 then "(?)" else "(" + Repeat("?,", l)[..l * 2 - 1] + ")"
  }

  /** `l >= 1` placeholders joined by commas: `?`, `?,?`, `?,?,?`, ... */
  function Placeholders(l: nat): string
    requires l >= 1
  {
    if l == 1 then "?" else Placeholders(l - 1) + ",?"
  }

  /** The groups of the list arguments, in argument order. */
  function Groups<V>(args: seq<Arg<V>>): (g: seq<string>)
    ensures |g| == ListCount(args)
  {
    if args == [] then []
    else match args[0]
      case Scalar(_) => Groups(args[1..])
      case List(items) => [Group(|items|)] + Groups(args[1..])
  }

  /** Offsets in `d` are marker-sized slots of `q`, strictly decreasing. */
  ghost predicate Spaced(q: string, d: seq<nat>)
  {
    (forall k :: 0 <= k < |d| ==> d[k] + 3 <= |q|) &&
    (forall a, b :: 0 <= a < b < |d| ==> d[b] + 3 <= d[a])
  }

  /** The offsets of `d` are exactly the markers of `q`, in decreasing order. */
  ghost predicate AllMarkers(q: string, d: seq<nat>)
  {
    Spaced(q, d) &&
    (forall k :: 0 <= k < |d| ==> MarkerAt(q, d[k])) &&
    (forall j {:trigger j in d} :: MarkerAt(q, j) ==> j in d)
  }

  /** The offsets the first loop of `transform` collects by repeated
      `LastIndex` on the shrinking prefix: the first is the last marker. */
  function MarkerIndices(s: string): seq<nat>
    decreases |s|
  {
    var i := LastMarker(s);
    if i == -1 then [] else [i] + MarkerIndices(s[..i])
  }

  /** The collected offsets are exactly the markers of `s`, last one first. */
  lemma {:induction false} MarkerIndicesExact(s: string)
    ensures AllMarkers(s, MarkerIndices(s))
    decreases |s|
  {
    var i := LastMarker(s);
    if i != -1 {
      var t := s[..i];
      MarkerIndicesExact(t);
      var d := MarkerIndices(s);
      var dt := MarkerIndices(t);
      assert d == [i] + dt;
      forall j | MarkerAt(s, j) ensures j in d {
        if j != i {
          MarkersApart(s, j, i);
          assert MarkerAt(t, j);
        }
      }
      forall k | 0 <= k < |d| ensures MarkerAt(s, d[k]) {
        if k > 0 {
          assert d[k] == dt[k - 1];
          assert MarkerAt(t, dt[k - 1]);
        }
      }
    }
  }

  /** The literal text copied after the list that brings the marker count
      down to `li`: from the end of its marker up to the next marker while
      one is left, else everything after the last marker. */
  function Segment(q: string, d: seq<nat>, li: int): string
    requires Spaced(q, d) && 0 < |d| && li < |d|
  {
    if li > 0 then q[d[li] + 3 .. d[li - 1]] else q[d[0] + 3 ..]
  }

  /** The text the argument loop appends for `args` while `li` markers are
      not yet consumed: nothing for a scalar, the group and the next literal
      segment for a list. */
  function ExpandFrom<V>(q: string, d: seq<nat>, args: seq<Arg<V>>, li: int): string
    requires Spaced(q, d) && 0 < |d| && li <= |d|
    decreases |args|
  {
    if args == [] then ""
    else match args[0]
      case Scalar(_) => ExpandFrom(q, d, args[1..], li)
      case List(items) =>
        Group(|items|) + Segment(q, d, li - 1) + ExpandFrom(q, d, args[1..], li - 1)
  }

  /** The marker-expansion phase: unchanged query and arguments (nil stays
      nil) when there is no marker; otherwise the text before the first
      marker followed by the expansion, and the flattened, non-nil argument
      list. */
  function Expand<V>(q: string, args: Slice<Arg<V>>): (string, Slice<Arg<V>>)
  {
    var d := MarkerIndices(q);
    MarkerIndicesExact(q);
    if d == [] then (q, args)
    else (q[..d[|d| - 1]] + ExpandFrom(q, d, args.Elems(), |d|), Slice(Flatten(args.Elems())))
  }

  /** The PostgreSQL phase: each `?` of `s`, left to right, becomes `$k`,
      `$k+1`, ...; every other character is kept. */
  function Number(s: string, k: nat): string
  {
    if s == [] then []
    else if s[0] == '?' then "$" + Itoa(k) + Number(s[1..], k + 1)
    else [s[0]] + Number(s[1..], k)
  }

  /** The whole transform: expansion, then renumbering for PostgreSQL. */
  function TransformSpec<V>(q: string, args: Slice<Arg<V>>, postgres: bool): (string, Slice<Arg<V>>)
  {
    var (q1, a1) := Expand(q, args);
    if postgres then (Number(q1, 1), a1) else (q1, a1)
  }

  /** `DB.transform`, written as the Go code's loops. */
  method Transform<V>(query: string, args: Slice<Arg<V>>, postgres: bool)
    returns (q: string, a: Slice<Arg<V>>)
    ensures (q, a) == TransformSpec(query, args, postgres)
  {
    q, a := query, args;
    var i := LastMarker(query);
    if i != -1 {
      var indices, tempQuery := CollectMarkers(query);
      var tempArgs;
      tempQuery, tempArgs := ExpandArgs(query, indices, tempQuery, args.Elems());
      q, a := tempQuery, Slice(tempArgs);
    }
    if postgres {
      q := Renumber(q);
    }
  }

  /** The first loop of `transform`: the marker offsets, last one first, and
      the query cut back to the text before its first marker. */
  method CollectMarkers(query: string) returns (indices: seq<nat>, tempQuery: string)
    requires LastMarker(query) != -1
    ensures indices == MarkerIndices(query) && indices != []
    ensures AllMarkers(query, indices)
    ensures tempQuery == query[..indices[|indices| - 1]]
  {
    var i := LastMarker(query);
    indices := [];
    tempQuery := query;
    while i != -1
      invariant i == LastMarker(tempQuery)
      invariant indices + MarkerIndices(tempQuery) == MarkerIndices(query)
      invariant |tempQuery| <= |query| && tempQuery == query[..|tempQuery|]
      invariant indices != [] ==> |tempQuery| == indices[|indices| - 1]
      invariant indices != [] || i != -1
      decreases |tempQuery|
    {
      CollectStep(query, tempQuery, indices, i);
      indices := indices + [i];
      tempQuery := tempQuery[..i];
      i := LastMarker(tempQuery);
    }
    assert indices + [] == indices;
    MarkerIndicesExact(query);
  }

  /** One pass of the marker loop: recording the last marker of the prefix
      and cutting the prefix back to it keeps the collected offsets a prefix
      of all of them. */
  lemma CollectStep(query: string, tempQuery: string, indices: seq<nat>, i: int)
    requires i == LastMarker(tempQuery) && i != -1
    requires indices + MarkerIndices(tempQuery) == MarkerIndices(query)
    requires |tempQuery| <= |query| && tempQuery == query[..|tempQuery|]
    ensures 0 <= i && i + 3 <= |tempQuery|
    ensures (indices + [i]) + MarkerIndices(tempQuery[..i]) == MarkerIndices(query)
    ensures tempQuery[..i] == query[..i]
  {
    assert MarkerIndices(tempQuery) == [i] + MarkerIndices(tempQuery[..i]);
    Assoc(indices, [i], MarkerIndices(tempQuery[..i]));
  }

  /** The argument loop of `transform`: each list expands the next marker and
      copies the literal text after it; each scalar is passed through. */
  method ExpandArgs<V>(query: string, indices: seq<nat>, prefix: string, argv: seq<Arg<V>>)
    returns (tempQuery: string, tempArgs: seq<Arg<V>>)
    requires Spaced(query, indices) && indices != []
    ensures tempQuery == prefix + ExpandFrom(query, indices, argv, |indices|)
    ensures tempArgs == Flatten(argv)
  {
    tempQuery := prefix;
    var lenIndices: int := |indices|;
    tempArgs := [];
    var k := 0;
    while k < |argv|
      invariant 0 <= k <= |argv|
      invariant lenIndices <= |indices|
      invariant tempQuery + ExpandFrom(query, indices, argv[k..], lenIndices) ==
        prefix + ExpandFrom(query, indices, argv, |indices|)
      invariant tempArgs + Flatten(argv[k..]) == Flatten(argv)
    {
      ghost var rest := argv[k..];
      assert rest != [] && rest[0] == argv[k] && rest[1..] == argv[k + 1..];
      FlattenHead(rest);
      match argv[k] {
      case Scalar(_) =>
        ScalarArgument(query, indices, rest, lenIndices);
        Assoc(tempArgs, [argv[k]], Flatten(argv[k + 1..]));
        tempArgs := tempArgs + [argv[k]];
      case List(items) =>
        ghost var before := tempQuery;
        var l := |items|;
        tempQuery := tempQuery + Group(l);
        lenIndices := lenIndices - 1;
        tempQuery := tempQuery + Segment(query, indices, lenIndices);
        ListArgumentExpand(query, indices, rest, lenIndices + 1);
        Assoc4(before, Group(l), Segment(query, indices, lenIndices),
          ExpandFrom(query, indices, argv[k + 1..], lenIndices));
        Assoc(tempArgs, Lift(items), Flatten(argv[k + 1..]));
        tempArgs := AppendElements(tempArgs, items);
      }
      k := k + 1;
    }
    assert argv[|argv|..] == [];
  }

  lemma Assoc<T>(a: seq<T>, b: seq<T>, c: seq<T>)
    ensures a + b + c == a + (b + c)
  {
  }

  lemma Assoc4<T>(a: seq<T>, b: seq<T>, c: seq<T>, d: seq<T>)
    ensures a + b + c + d == a + (b + c + d)
  {
  }

  /** A leading scalar argument changes neither the groups, nor the list
      count, nor the expansion. */
  lemma ScalarArgument<V>(q: string, d: seq<nat>, args: seq<Arg<V>>, li: int)
    requires Spaced(q, d) && 0 < |d| && li <= |d|
    requires args != [] && args[0].Scalar?
    ensures Groups(args) == Groups(args[1..])
    ensures ListCount(args) == ListCount(args[1..])
    ensures ExpandFrom(q, d, args, li) == ExpandFrom(q, d, args[1..], li)
  {
  }

  /** How a leading list argument unfolds in the expansion. */
  lemma ListArgumentExpand<V>(q: string, d: seq<nat>, args: seq<Arg<V>>, li: int)
    requires Spaced(q, d) && 0 < |d| && li <= |d|
    requires args != [] && args[0].List?
    ensures ExpandFrom(q, d, args, li) ==
      Group(|args[0].items|) + Segment(q, d, li - 1) + ExpandFrom(q, d, args[1..], li - 1)
  {
  }

  /** How a leading list argument unfolds in the groups and the list count. */
  lemma ListArgumentGroups<V>(args: seq<Arg<V>>)
    requires args != [] && args[0].List?
    ensures Groups(args) == [Group(|args[0].items|)] + Groups(args[1..])
    ensures ListCount(args) == ListCount(args[1..]) + 1
  {
  }

  /** How the leading argument unfolds in the flattened list. */
  lemma FlattenHead<V>(args: seq<Arg<V>>)
    requires args != []
    ensures Flatten(args) ==
      (if args[0].Scalar? then [args[0]] else Lift(args[0].items)) + Flatten(args[1..])
  {
  }

  /** The element loop of `transform`: appends a list's elements in order. */
  method AppendElements<V>(tempArgs: seq<Arg<V>>, items: seq<V>) returns (r: seq<Arg<V>>)
    ensures r == tempArgs + Lift(items)
  {
    r := tempArgs;
    var e := 0;
    while e < |items|
      invariant 0 <= e <= |items|
      invariant r == tempArgs + Lift(items[..e])
    {
      assert Lift(items[..e + 1]) == Lift(items[..e]) + [Scalar(items[e])];
      r := r + [Scalar(items[e])];
      e := e + 1;
    }
    assert items[..|items|] == items;
  }

  /** The PostgreSQL loop of `transform`: `count` times, the first `?` left
      becomes the next `$i`. */
  method Renumber(query: string) returns (q: string)
    ensures q == Number(query, 1)
  {
    q := query;
    var count := Count(q, '?');
    var i := 1;
    ghost var p := 0;
    while i <= count
      invariant 1 <= i <= count + 1
      invariant 0 <= p <= |query|
      invariant Count(query[..p], '?') == i - 1
      invariant q == Number(query[..p], 1) + query[p..]
      decreases count + 1 - i
    {
      ghost var j := RenumberStep(query, p, i);
      p := j + 1;
      q := ReplaceFirst(q, '?', "$" + Itoa(i));
      i := i + 1;
    }
    NumberRest(query, p, i);
  }

  // ----- lemmas behind the renumbering loop -----

  /** Renumbering leaves no `?` behind. */
  lemma {:induction false} NumberHasNoQuestion(s: string, k: nat)
    ensures Count(Number(s, k), '?') == 0
  {
    if s != [] {
      NumberHasNoQuestion(s[1..], if s[0] == '?' then k + 1 else k);
      if s[0] == '?' {
        ItoaHasNoQuestion(k);
        CountConcat("$" + Itoa(k), Number(s[1..], k + 1), '?');
        CountConcat("$", Itoa(k), '?');
      } else {
        CountConcat([s[0]], Number(s[1..], k), '?');
      }
    }
  }

  /** Text without `?` is left as it is. */
  lemma {:induction false} NumberIdentity(s: string, k: nat)
    requires Count(s, '?') == 0
    ensures Number(s, k) == s
  {
    if s != [] {
      NumberIdentity(s[1..], k);
    }
  }

  /** Renumbering works piecewise: the second piece continues the count
      where the first one stopped. */
  lemma {:induction false} NumberConcat(a: string, b: string, k: nat)
    ensures Number(a + b, k) == Number(a, k) + Number(b, k + Count(a, '?'))
  {
    if a == [] {
      assert a + b == b;
      assert Number(a, k) == [] && Count(a, '?') == 0;
      assert Number(a, k) + Number(b, k) == Number(b, k);
    } else {
      var k' := if a[0] == '?' then k + 1 else k;
      var head := if a[0] == '?' then "$" + Itoa(k) else [a[0]];
      assert (a + b)[0] == a[0] && (a + b)[1..] == a[1..] + b;
      NumberConcat(a[1..], b, k');
      assert Count(a, '?') == Count(a[1..], '?') + (if a[0] == '?' then 1 else 0);
      assert Number(a + b, k) == head + Number(a[1..] + b, k');
      assert Number(a, k) == head + Number(a[1..], k');
      Assoc(head, Number(a[1..], k'), Number(b, k' + Count(a[1..], '?')));
      assert k' + Count(a[1..], '?') == k + Count(a, '?');
    }
  }

  /** One pass of the renumbering loop: replacing the first `?` of the
      partly renumbered text advances the renumbered prefix past the next
      `?` of the original. */
  lemma RenumberStep(orig: string, p: nat, n: nat) returns (j: nat)
    requires p <= |orig| && n >= 1
    requires Count(orig[..p], '?') == n - 1 && n <= Count(orig, '?')
    ensures p <= j < |orig| && Count(orig[..j + 1], '?') == n
    ensures ReplaceFirst(Number(orig[..p], 1) + orig[p..], '?', "$" + Itoa(n)) ==
      Number(orig[..j + 1], 1) + orig[j + 1..]
  {
    assert orig == orig[..p] + orig[p..];
    CountConcat(orig[..p], orig[p..], '?');
    var jj := FirstOccurrence(orig[p..], '?');
    j := jj + p;
    var s := orig[p..];
    assert orig[..j + 1] == orig[..p] + s[..jj] + "?";
    CountConcat(orig[..p], s[..jj], '?');
    CountConcat(orig[..p] + s[..jj], "?", '?');
    RenumberSplice(orig[..p], s, jj, n);
    assert orig[j + 1..] == s[jj + 1..];
  }

  /** The text equation behind `RenumberStep`, with the original split at `p`
      into `pre` and `s`, and the first `?` of `s` at `jj`. */
  lemma RenumberSplice(pre: string, s: string, jj: nat, n: nat)
    requires jj < |s| && s[jj] == '?' && Count(s[..jj], '?') == 0
    requires Count(pre, '?') == n - 1 && n >= 1
    ensures ReplaceFirst(Number(pre, 1) + s, '?', "$" + Itoa(n)) ==
      Number(pre + s[..jj] + "?", 1) + s[jj + 1..]
  {
    var r := "$" + Itoa(n);
    var np := Number(pre, 1);
    var mid := s[..jj];
    calc {
      ReplaceFirst(np + s, '?', r);
      { NumberHasNoQuestion(pre, 1); ReplaceFirstSkip(np, s, '?', r); }
      np + ReplaceFirst(s, '?', r);
      { ReplaceFirstAt(s, '?', r, jj); }
      np + (mid + r + s[jj + 1..]);
      { Assoc4(np, mid, r, s[jj + 1..]); }
      np + mid + r + s[jj + 1..];
      { NumberTail(pre, mid, n); }
      Number(pre + mid + "?", 1) + s[jj + 1..];
    }
  }

  /** Renumbering the original up to and including its `n`-th `?`. */
  lemma NumberTail(pre: string, mid: string, n: nat)
    requires Count(pre, '?') == n - 1 && Count(mid, '?') == 0 && n >= 1
    ensures Number(pre + mid + "?", 1) == Number(pre, 1) + mid + ("$" + Itoa(n))
  {
    calc {
      Number(pre + mid + "?", 1);
      { NumberConcat(pre + mid, "?", 1); CountConcat(pre, mid, '?'); }
      Number(pre + mid, 1) + Number("?", n);
      { NumberConcat(pre, mid, 1); NumberIdentity(mid, n); }
      Number(pre, 1) + mid + Number("?", n);
      { NumberQuestion(n); }
      Number(pre, 1) + mid + ("$" + Itoa(n));
    }
  }

  lemma NumberQuestion(n: nat)
    ensures Number("?", n) == "$" + Itoa(n)
  {
    assert "?"[1..] == [];
  }

  /** When the loop stops, the rest of the original holds no `?`. */
  lemma NumberRest(orig: string, p: nat, n: nat)
    requires p <= |orig| && n >= 1
    requires Count(orig[..p], '?') == n - 1 && n == Count(orig, '?') + 1
    ensures Number(orig[..p], 1) + orig[p..] == Number(orig, 1)
  {
    var a, b := orig[..p], orig[p..];
    assert orig == a + b;
    CountConcat(a, b, '?');
    NumberRestSplit(a, b, n);
  }

  /** `NumberRest` on the two pieces of the original. */
  lemma NumberRestSplit(a: string, b: string, n: nat)
    requires Count(a, '?') == n - 1 && Count(b, '?') == 0 && n >= 1
    ensures Number(a, 1) + b == Number(a + b, 1)
  {
    NumberConcat(a, b, 1);
    NumberIdentity(b, n);
  }
}
