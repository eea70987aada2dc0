/**
 Module-path helpers (`getModuleName` in pkg/collector/py/utils.go): Go's
 `strings.Split(path, ".")` and taking its last piece.
 */
module ModuleName {

  /** Joins pieces with `.` between them: the inverse of `Split`. */
  function Join(pieces: seq<string>): string
    requires |pieces| >= 1
  {
    if |pieces| == 1 then pieces[0]
    else Join(pieces[..|pieces| - 1]) + "." + pieces[|pieces| - 1]
  }

  /**
   `strings.Split(s, ".")`: the maximal dot-free runs of `s`, in order, with an
   empty piece before a leading dot, after a trailing dot and between two
   adjacent dots. It always yields at least one piece.
   */
  function Split(s: string): (pieces: seq<string>)
    ensures |pieces| >= 1
  {
    if |s| == 0 then [""]
    else
      var init := Split(s[..|s| - 1]);
      var c := s[|s| - 1];
      assert s == s[..|s| - 1] + [c];
      if c == '.' then init + [""]
      else
        var last := init[|init| - 1] + [c];
        var pieces := init[..|init| - 1] + [last];
        assert pieces[..|pieces| - 1] == init[..|init| - 1];
        pieces
  }

  /** The pieces are dot-free and join back to `s`; a dot-free `s` is a single piece. */
  lemma SplitSpec(s: string)
    ensures forall i :: 0 <= i < |Split(s)| ==> '.' !in Split(s)[i]
    ensures Join(Split(s)) == s
    ensures '.' !in s ==> Split(s) == [s]
    ensures '.' in s ==> |Split(s)| > 1
  {
    SplitDotFree(s);
    SplitJoinsBack(s);
    SplitCount(s);
  }

  lemma {:induction false} SplitDotFree(s: string)
    ensures forall i :: 0 <= i < |Split(s)| ==> '.' !in Split(s)[i]
  {
    if |s| > 0 {
      var s' := s[..|s| - 1];
      SplitDotFree(s');
      var init := Split(s');
      var c := s[|s| - 1];
      if c != '.' {
        var pieces := Split(s);
        assert forall i :: 0 <= i < |pieces| - 1 ==> pieces[i] == init[i];
        assert pieces[|pieces| - 1] == init[|init| - 1] + [c];
      }
    }
  }

  lemma {:induction false} SplitJoinsBack(s: string)
    ensures Join(Split(s)) == s
  {
    if |s| > 0 {
      var s' := s[..|s| - 1];
      var c := s[|s| - 1];
      assert s == s' + [c];
      SplitJoinsBack(s');
      var init := Split(s');
      if c != '.' {
        var pieces := Split(s);
        assert pieces[..|pieces| - 1] == init[..|init| - 1];
        if |init| > 1 {
          assert Join(init) == Join(init[..|init| - 1]) + "." + init[|init| - 1];
        }
      }
    }
  }

  lemma {:induction false} SplitCount(s: string)
    ensures '.' !in s ==> Split(s) == [s]
    ensures '.' in s ==> |Split(s)| > 1
  {
    if |s| > 0 {
      var s' := s[..|s| - 1];
      var c := s[|s| - 1];
      assert s == s' + [c];
      SplitCount(s');
      if '.' !in s {
        assert '.' !in s' by {
          forall i | 0 <= i < |s'| ensures s'[i] != '.' { assert s'[i] == s[i]; }
        }
      } else if c != '.' {
        assert '.' in s';
      }
    }
  }

  /** Splitting `x + "." + y` for a dot-free `y` adds `y` as one more piece. */
  lemma {:induction false} SplitAppendPiece(x: string, y: string)
    requires '.' !in y
    ensures Split(x + "." + y) == Split(x) + [y]
    decreases |y|
  {
    var s := x + "." + y;
    if |y| == 0 {
      assert s[..|s| - 1] == x;
      assert s[|s| - 1] == '.';
    } else {
      var y' := y[..|y| - 1];
      var c := y[|y| - 1];
      assert y == y' + [c];
      assert c != '.';
      assert '.' !in y' by {
        forall i | 0 <= i < |y'| ensures y'[i] != '.' { assert y'[i] == y[i]; }
      }
      var s' := x + "." + y';
      assert s == s' + [c];
      assert s[..|s| - 1] == s';
      assert s[|s| - 1] == c;
      SplitAppendPiece(x, y');
      var init := Split(s');
      assert Split(s) == init[..|init| - 1] + [init[|init| - 1] + [c]];
      assert init == Split(x) + [y'];
      assert init[..|init| - 1] == Split(x);
      assert init[|init| - 1] + [c] == y;
    }
  }

  /** Round trip the other way: splitting a join of dot-free pieces gives the pieces back. */
  lemma {:induction false} SplitJoin(pieces: seq<string>)
    requires |pieces| >= 1
    requires forall i :: 0 <= i < |pieces| ==> '.' !in pieces[i]
    ensures Split(Join(pieces)) == pieces
    decreases |pieces|
  {
    if |pieces| == 1 {
      SplitSpec(pieces[0]);
    } else {
      var init := pieces[..|pieces| - 1];
      SplitJoin(init);
      SplitAppendPiece(Join(init), pieces[|pieces| - 1]);
      assert init + [pieces[|pieces| - 1]] == pieces;
    }
  }

  /**
   `getModuleName`: the rightmost component of a dotted module path. It is the
   dot-free suffix of the path that is either the whole path or preceded by a dot.
   */
  function GetModuleName(path: string): (name: string)
    ensures '.' !in name
    ensures |name| <= |path| && path[|path| - |name|..] == name
    ensures '.' !in path ==> name == path
    ensures '.' in path ==> |name| < |path| && path[|path| - |name| - 1] == '.'
  {
    SplitSpec(path);
    var toks := Split(path);
    toks[|toks| - 1]
  }

  /** Those properties pin the result down: any dot-free suffix preceded by a dot (or whole) is it. */
  lemma {:induction false} ModuleNameUnique(path: string, name: string)
    requires '.' !in name
    requires |name| <= |path| && path[|path| - |name|..] == name
    requires |name| < |path| ==> path[|path| - |name| - 1] == '.'
    ensures GetModuleName(path) == name
  {
  }

  /** A qualified path `prefix.name` yields `name`: `foo.bar.baz` gives `baz`, `foo.` gives "". */
  lemma QualifiedName(prefix: string, name: string)
    requires '.' !in name
    ensures GetModuleName(prefix + "." + name) == name
  {
    var path := prefix + "." + name;
    assert path[|path| - |name|..] == name;
    ModuleNameUnique(path, name);
  }

  /** Taking the module name twice changes nothing. */
  lemma ModuleNameIdempotent(path: string)
    ensures GetModuleName(GetModuleName(path)) == GetModuleName(path)
  {
  }
}
