/**
 * The Python string operations the file-name code relies on: split on one
 * character, replace, suffix tests, and substring occurrence.
 */
module PyStrings {

  /** The position of the first c in s, |s| when there is none. */
  function IndexOf(s: string, c: char): (i: nat)
    ensures i <= |s|
    ensures forall j :: 0 <= j < i ==> s[j] != c
    ensures i < |s| ==> s[i] == c
  {
    if s == [] then 0 else if s[0] == c then 0 else 1 + IndexOf(s[1..], c)
  }

  /** sep.join(pieces) for a one-character separator. */
  function Join(pieces: seq<string>, sep: char): string
    requires |pieces| >= 1
  {
    if |pieces| == 1 then pieces[0] else pieces[0] + [sep] + Join(pieces[1..], sep)
  }

  /**
   * s.split(sep) for a one-character separator: at least one piece, no
   * piece holds the separator, and joining the pieces gives s back.
   */
  function Split(s: string, sep: char): (r: seq<string>)
    ensures |r| >= 1
    ensures forall k :: 0 <= k < |r| ==> sep !in r[k]
    ensures Join(r, sep) == s
    decreases |s|
  {
    var i := IndexOf(s, sep);
    if i == |s| then [s]
    else
      var rest := Split(s[i + 1..], sep);
      assert ([s[..i]] + rest)[1..] == rest;
      assert s == s[..i] + [sep] + s[i + 1..];
      [s[..i]] + rest
  }

  /** Splitting a join of separator-free pieces gives the pieces back. */
  lemma {:induction false} SplitJoin(pieces: seq<string>, sep: char)
    requires |pieces| >= 1
    requires forall k :: 0 <= k < |pieces| ==> sep !in pieces[k]
    ensures Split(Join(pieces, sep), sep) == pieces
  {
    var s := Join(pieces, sep);
    if |pieces| > 1 {
      var tail := Join(pieces[1..], sep);
      SplitJoin(pieces[1..], sep);
      assert s == pieces[0] + [sep] + tail;
      IndexOfPrefix(pieces[0], sep, tail);
      assert s[..|pieces[0]|] == pieces[0];
      assert s[|pieces[0]| + 1..] == tail;
      assert [pieces[0]] + pieces[1..] == pieces;
    }
  }

  /** In a + [c] + b with no c in a, the first c is the one after a. */
  lemma {:induction false} IndexOfPrefix(a: string, c: char, b: string)
    requires c !in a
    ensures IndexOf(a + [c] + b, c) == |a|
  {
    var s := a + [c] + b;
    if a != [] {
      assert s[1..] == a[1..] + [c] + b;
      IndexOfPrefix(a[1..], c, b);
    }
  }

  function Last<T>(s: seq<T>): T
    requires |s| > 0
  {
    s[|s| - 1]
  }

  /** The last piece of a + [c] + b, when b holds no c, is b. */
  lemma {:induction false} LastPieceAfter(a: string, c: char, b: string)
    requires c !in b
    ensures Last(Split(a + [c] + b, c)) == b
    decreases |a|
  {
    var s := a + [c] + b;
    var i := IndexOf(s, c);
    assert IndexOf(b, c) == |b|;
    if i < |a| {
      assert s[i + 1..] == a[i + 1..] + [c] + b;
      LastPieceAfter(a[i + 1..], c, b);
    } else {
      assert i == |a| by {
        assert s[|a|] == c;
      }
      assert s[i + 1..] == b;
    }
  }

  /** sub occurs in s somewhere. */
  predicate Occurs(s: string, sub: string)
    decreases |s|
  {
    |sub| <= |s| && (s[..|sub|] == sub || (s != [] && Occurs(s[1..], sub)))
  }

  /** The slice of s at i is sub. */
  predicate SliceAt(s: string, sub: string, i: int)
  {
    0 <= i <= |s| - |sub| && s[i..i + |sub|] == sub
  }

  /** Occurs means what `sub in s` means: some slice of s equals sub. */
  lemma {:induction false} OccursIff(s: string, sub: string)
    ensures Occurs(s, sub) <==> exists i :: SliceAt(s, sub, i)
    decreases |s|
  {
    if |sub| > |s| {
    } else if s[..|sub|] == sub {
      assert SliceAt(s, sub, 0);
    } else {
      OccursIff(s[1..], sub);
      if Occurs(s[1..], sub) {
        var i :| SliceAt(s[1..], sub, i);
        assert s[i + 1..i + 1 + |sub|] == s[1..][i..i + |sub|];
        assert SliceAt(s, sub, i + 1);
      }
      if i :| SliceAt(s, sub, i) {
        assert i != 0;
        assert s[1..][i - 1..i - 1 + |sub|] == s[i..i + |sub|];
        assert SliceAt(s[1..], sub, i - 1);
      }
    }
  }

  /** sub occurs in any string that has it as a piece. */
  lemma {:induction false} OccursIn(a: string, sub: string, b: string)
    ensures Occurs(a + sub + b, sub)
    decreases |a|
  {
    var s := a + sub + b;
    if a == [] {
      assert s[..|sub|] == sub;
    } else {
      assert s[1..] == a[1..] + sub + b;
      OccursIn(a[1..], sub, b);
    }
  }

  /** A string that holds the first character of sub nowhere cannot hold sub. */
  lemma {:induction false} OccursHasFirst(s: string, sub: string)
    requires |sub| > 0 && sub[0] !in s
    ensures !Occurs(s, sub)
    decreases |s|
  {
    if |sub| <= |s| {
      assert s[..|sub|][0] == s[0];
      OccursHasFirst(s[1..], sub);
    }
  }

  /**
   * s.replace(pattern, replacement): occurrences of pattern replaced left
   * to right, without overlap. A string without pattern comes back unchanged.
   */
  function Replace(s: string, pattern: string, replacement: string): (r: string)
    requires |pattern| > 0
    ensures !Occurs(s, pattern) ==> r == s
    decreases |s|
  {
    if |s| < |pattern| then s
    else if s[..|pattern|] == pattern then replacement + Replace(s[|pattern|..], pattern, replacement)
    else [s[0]] + Replace(s[1..], pattern, replacement)
  }

  /** Replacing by text without c never introduces c. */
  lemma {:induction false} ReplaceKeepsOut(s: string, pattern: string, replacement: string, c: char)
    requires |pattern| > 0 && c !in s && c !in replacement
    ensures c !in Replace(s, pattern, replacement)
    decreases |s|
  {
    if |s| >= |pattern| {
      if s[..|pattern|] == pattern {
        ReplaceKeepsOut(s[|pattern|..], pattern, replacement, c);
      } else {
        ReplaceKeepsOut(s[1..], pattern, replacement, c);
      }
    }
  }

  /** Replacing a pattern that ends the string, and whose first character appears nowhere before it, leaves the text before it. */
  lemma {:induction false} ReplaceTrailing(t: string, pattern: string)
    requires |pattern| > 0 && pattern[0] !in t
    ensures Replace(t + pattern, pattern, "") == t
  {
    var s := t + pattern;
    if t == [] {
      assert s[..|pattern|] == pattern;
      assert s[|pattern|..] == [];
    } else {
      assert s[0] == t[0];
      assert s[1..] == t[1..] + pattern;
      ReplaceTrailing(t[1..], pattern);
      assert [t[0]] + t[1..] == t;
    }
  }

  /** The first piece of a split is the text before the first separator. */
  lemma FirstPiece(s: string, sep: char)
    ensures Split(s, sep)[0] == s[..IndexOf(s, sep)]
  {
  }

  predicate EndsWith(s: string, suffix: string)
  {
    |suffix| <= |s| && s[|s| - |suffix|..] == suffix
  }

  /** s with a trailing suffix removed, when it has one. */
  function StripSuffix(s: string, suffix: string): (r: string)
    ensures EndsWith(s, suffix) ==> r + suffix == s
    ensures !EndsWith(s, suffix) ==> r == s
  {
    if EndsWith(s, suffix) then s[..|s| - |suffix|] else s
  }

  /** Helper: regrouping a concatenation, stated over variables so that string constants stay out of the solver's way. */
  lemma Regroup(a: string, b: string, c: string, d: string, e: string)
    ensures a + (b + c + d) + e == a + b + c + d + e
  {
  }

  /** s.rfind(c): the position of the last c in s, -1 when there is none. */
  function RFind(s: string, c: char): (i: int)
    ensures -1 <= i < |s|
    ensures i >= 0 ==> s[i] == c
    ensures forall j :: i < j < |s| ==> s[j] != c
  {
    if s == [] then -1 else if s[|s| - 1] == c then |s| - 1 else RFind(s[..|s| - 1], c)
  }

  /**
   * os.path.splitext of a bare file name: the extension starts at the last
   * '.', unless everything before that '.' is dots, in which case there is
   * no extension.
   */
  function SplitExt(p: string): (r: (string, string))
    ensures r.0 + r.1 == p
    ensures r.1 == [] || (r.1[0] == '.' && '.' !in r.1[1..])
  {
    var d := RFind(p, '.');
    if d > 0 && exists j :: 0 <= j < d && p[j] != '.' then
      assert p[..d] + p[d..] == p;
      (p[..d], p[d..])
    else (p, "")
  }

  /** A name that ends in an extension after a non-dot character splits there. */
  lemma SplitExtOf(base: string, ext: string)
    requires |ext| > 0 && ext[0] == '.' && '.' !in ext[1..]
    requires exists j :: 0 <= j < |base| && base[j] != '.'
    ensures SplitExt(base + ext) == (base, ext)
  {
    var p := base + ext;
    assert p[|base|] == '.';
    assert forall j :: |base| < j < |p| ==> p[j] == ext[1..][j - |base| - 1];
    var d := RFind(p, '.');
    assert d == |base|;
    var j :| 0 <= j < |base| && base[j] != '.';
    assert p[j] == base[j];
    assert p[..d] == base && p[d..] == ext;
  }
}
