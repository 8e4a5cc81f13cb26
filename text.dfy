/** The `str` operations the program uses, `sep.join` and `str.strip()`,
    stated over an abstract character type `C`. `Concat` and `Split` are not
    called by the program: they are the partners against which the chunking
    and the line structure of a joined text are stated. */
module Text {

  /** The pieces one after another, nothing in between. */
  function Concat<C>(pieces: seq<seq<C>>): seq<C>
  {
    if pieces == [] then [] else pieces[0] + Concat(pieces[1..])
  }

  /** `sep.join(pieces)`: the pieces with `sep` between neighbours;
      the empty sequence when there are no pieces. */
  function Join<C>(sep: seq<C>, pieces: seq<seq<C>>): (r: seq<C>)
    ensures pieces == [] ==> r == []
    ensures pieces != [] ==> |r| >= |pieces[0]| && r[..|pieces[0]|] == pieces[0]
    ensures pieces != [] ==> |r| >= |pieces[|pieces| - 1]|
    ensures pieces != [] ==> r[|r| - |pieces[|pieces| - 1]|..] == pieces[|pieces| - 1]
  {
    if |pieces| == 0 then []
    else if |pieces| == 1 then pieces[0]
    else pieces[0] + sep + Join(sep, pieces[1..])
  }

  /** `s.split(sep)` for a one-character separator: the maximal runs between
      separators, so always at least one (possibly empty) piece. */
  function Split<C(==)>(sep: C, s: seq<C>): (r: seq<seq<C>>)
    ensures |r| >= 1
    decreases |s|
  {
    if s == [] then [[]]
    else if s[0] == sep then [[]] + Split(sep, s[1..])
    else
      var rest := Split(sep, s[1..]);
      [[s[0]] + rest[0]] + rest[1..]
  }

  /** `s.lstrip()`: drops the leading characters `isSpace` holds of. */
  function TrimStart<C>(s: seq<C>, isSpace: C -> bool): (r: seq<C>)
    ensures |r| <= |s| && r == s[|s| - |r|..]
    ensures r == [] || !isSpace(r[0])
    ensures forall i :: 0 <= i < |s| - |r| ==> isSpace(s[i])
    decreases |s|
  {
    if s != [] && isSpace(s[0]) then TrimStart(s[1..], isSpace) else s
  }

  /** `s.rstrip()`: drops the trailing characters `isSpace` holds of. */
  function TrimEnd<C>(s: seq<C>, isSpace: C -> bool): (r: seq<C>)
    ensures |r| <= |s| && r == s[..|r|]
    ensures r == [] || !isSpace(r[|r| - 1])
    ensures forall i :: |r| <= i < |s| ==> isSpace(s[i])
    decreases |s|
  {
    if s != [] && isSpace(s[|s| - 1]) then TrimEnd(s[..|s| - 1], isSpace) else s
  }

  /** Every character of `s` is whitespace. */
  ghost predicate AllSpace<C>(s: seq<C>, isSpace: C -> bool)
  {
    forall i :: 0 <= i < |s| ==> isSpace(s[i])
  }

  /** `s.strip()`: whitespace removed from both ends. */
  function Strip<C>(s: seq<C>, isSpace: C -> bool): (r: seq<C>)
    ensures r == [] <==> AllSpace(s, isSpace)
    ensures r != [] ==> !isSpace(r[0]) && !isSpace(r[|r| - 1])
  {
    var t := TrimStart(s, isSpace);
    assert t == [] || !isSpace(TrimEnd(t, isSpace)[0]) by {
      if t != [] && TrimEnd(t, isSpace) != [] {
        assert TrimEnd(t, isSpace)[0] == t[0];
      }
    }
    TrimEnd(t, isSpace)
  }

  /** Strip leaves a string it has already stripped alone. */
  lemma StripIdempotent<C>(s: seq<C>, isSpace: C -> bool)
    ensures Strip(Strip(s, isSpace), isSpace) == Strip(s, isSpace)
  {
    var r := Strip(s, isSpace);
    StripUnique([], r, [], isSpace);
    assert [] + r + [] == r;
  }

  /** Strip is the unique core: a string made of whitespace, a core that is
      empty or starts and ends with a non-space, and whitespace again, strips
      to that core. */
  lemma StripUnique<C>(a: seq<C>, m: seq<C>, b: seq<C>, isSpace: C -> bool)
    requires AllSpace(a, isSpace) && AllSpace(b, isSpace)
    requires m == [] || (!isSpace(m[0]) && !isSpace(m[|m| - 1]))
    ensures Strip(a + m + b, isSpace) == m
  {
    var s := a + m + b;
    if m == [] {
      forall i | 0 <= i < |s| ensures isSpace(s[i]) {
        if i < |a| { assert s[i] == a[i]; } else { assert s[i] == b[i - |a|]; }
      }
    } else {
      assert s == a + (m + b);
      TrimStartStops(a, m + b, isSpace);
      TrimEndStops(m, b, isSpace);
    }
  }

  /** TrimStart drops a whitespace prefix and stops at the first non-space. */
  lemma {:induction false} TrimStartStops<C>(a: seq<C>, rest: seq<C>, isSpace: C -> bool)
    requires AllSpace(a, isSpace)
    requires rest != [] && !isSpace(rest[0])
    ensures TrimStart(a + rest, isSpace) == rest
  {
    if a == [] {
      assert a + rest == rest;
    } else {
      assert (a + rest)[1..] == a[1..] + rest;
      TrimStartStops(a[1..], rest, isSpace);
    }
  }

  /** TrimEnd drops a whitespace suffix and stops at the last non-space. */
  lemma {:induction false} TrimEndStops<C>(rest: seq<C>, b: seq<C>, isSpace: C -> bool)
    requires AllSpace(b, isSpace)
    requires rest != [] && !isSpace(rest[|rest| - 1])
    ensures TrimEnd(rest + b, isSpace) == rest
  {
    if b == [] {
      assert rest + b == rest;
    } else {
      assert (rest + b)[..|rest + b| - 1] == rest + b[..|b| - 1];
      TrimEndStops(rest, b[..|b| - 1], isSpace);
    }
  }

  /** A separator-free piece followed by the separator splits off as one piece. */
  lemma {:induction false} SplitPrefix<C>(sep: C, a: seq<C>, b: seq<C>)
    requires sep !in a
    ensures Split(sep, a + [sep] + b) == [a] + Split(sep, b)
    decreases |a|
  {
    if a == [] {
      assert a + [sep] + b == [sep] + b;
      assert ([sep] + b)[1..] == b;
    } else {
      var s := a + [sep] + b;
      assert s[0] == a[0] && s[1..] == a[1..] + [sep] + b;
      SplitPrefix(sep, a[1..], b);
      assert [a[0]] + a[1..] == a;
    }
  }

  /** A separator-free sequence is a single piece. */
  lemma {:induction false} SplitWhole<C>(sep: C, a: seq<C>)
    requires sep !in a
    ensures Split(sep, a) == [a]
    decreases |a|
  {
    if a != [] {
      SplitWhole(sep, a[1..]);
      assert [a[0]] + a[1..] == a;
    }
  }

  /** Round trip: splitting a join of separator-free pieces gives the pieces back. */
  lemma {:induction false} SplitJoin<C>(sep: C, pieces: seq<seq<C>>)
    requires pieces != []
    requires forall k :: 0 <= k < |pieces| ==> sep !in pieces[k]
    ensures Split(sep, Join([sep], pieces)) == pieces
  {
    if |pieces| == 1 {
      SplitWhole(sep, pieces[0]);
    } else {
      SplitJoin(sep, pieces[1..]);
      SplitPrefix(sep, pieces[0], Join([sep], pieces[1..]));
      assert [pieces[0]] + pieces[1..] == pieces;
    }
  }
}
