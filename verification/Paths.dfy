/** Unix path texts and the places they name. */
module Paths {
  import opened Prefixes

  /** The pieces with one character more in front. */
  function WithChar(c: char, pieces: seq<string>): seq<string>
    requires pieces != []
  {
    if c == '/' then [""] + pieces else [[c] + pieces[0]] + pieces[1..]
  }

  /** The pieces of `s` between its slashes. */
  function Split(s: string): (r: seq<string>)
    ensures |r| >= 1
  {
    if s == "" then [""] else WithChar(s[0], Split(s[1..]))
  }

  function Named(pieces: seq<string>): Place {
    if pieces == [] then []
    else (if pieces[0] == "" || pieces[0] == "." then [] else [pieces[0]]) + Named(pieces[1..])
  }

  /** The components of a path text: empty pieces and `.` name nothing. */
  function Components(s: string): Place {
    Named(Split(s))
  }

  predicate EndsWith(s: string, end: string) {
    |end| <= |s| && s[|s| - |end|..] == end
  }

  lemma OneCharMore(c: char, a: seq<string>, b: seq<string>)
    requires a != []
    ensures WithChar(c, a + b) == WithChar(c, a) + b
  {
  }

  lemma SplitStep(s: string)
    requires s != ""
    ensures Split(s) == WithChar(s[0], Split(s[1..]))
  {
  }

  lemma {:induction false} SplitConcat(a: string, b: string)
    ensures Split(a + "/" + b) == Split(a) + Split(b)
  {
    if a == "" {
      assert a + "/" + b == "/" + b && ("/" + b)[1..] == b;
    } else {
      var whole := a + "/" + b;
      assert whole[0] == a[0] && whole[1..] == a[1..] + "/" + b;
      SplitStep(whole);
      SplitStep(a);
      hide Split;
      SplitConcat(a[1..], b);
      OneCharMore(a[0], Split(a[1..]), Split(b));
    }
  }

  lemma {:induction false} SplitPlain(s: string)
    requires '/' !in s
    ensures Split(s) == [s]
  {
    if s != "" {
      assert s[0] in s;
      SplitPlain(s[1..]);
      assert [s[0]] + s[1..] == s;
    }
  }

  lemma {:induction false} NamedConcat(a: seq<string>, b: seq<string>)
    ensures Named(a + b) == Named(a) + Named(b)
  {
    if a == [] {
      assert a + b == b;
    } else {
      assert (a + b)[1..] == a[1..] + b;
      NamedConcat(a[1..], b);
    }
  }

  /** A path text joined with a slash names the one place below the other. */
  lemma ComponentsJoin(a: string, b: string)
    ensures Components(a + "/" + b) == Components(a) + Components(b)
  {
    SplitConcat(a, b);
    NamedConcat(Split(a), Split(b));
  }

  lemma ComponentsOfName(s: string)
    requires '/' !in s && s != "" && s != "."
    ensures Components(s) == [s]
  {
    SplitPlain(s);
    assert Named([s]) == [s] + Named([s][1..]) && [s][1..] == [];
  }

  /** A joined name is one component more. */
  lemma ComponentsBelow(a: string, name: string)
    requires '/' !in name && name != "" && name != "."
    ensures Components(a + "/" + name) == Components(a) + [name]
  {
    ComponentsJoin(a, name);
    ComponentsOfName(name);
  }

  /** `/a/b/c` for the names a, b, c. */
  function Absolute(names: Place): string {
    if names == [] then "" else Absolute(names[..|names| - 1]) + "/" + names[|names| - 1]
  }

  predicate IsName(s: string) {
    '/' !in s && s != "" && s != "."
  }

  /** A path text continued with names is the place that many names further down. */
  lemma {:induction false} ComponentsUnder(base: string, names: Place)
    requires forall i :: 0 <= i < |names| ==> IsName(names[i])
    ensures Components(base + Absolute(names)) == Components(base) + names
  {
    if names == [] {
      assert base + "" == base;
      assert Components(base) + [] == Components(base);
    } else {
      var before, last := names[..|names| - 1], names[|names| - 1];
      var above := Absolute(before);
      assert Absolute(names) == above + "/" + last;
      hide Components, Absolute;
      ComponentsUnder(base, before);
      assert base + (above + "/" + last) == base + above + "/" + last;
      ComponentsBelow(base + above, last);
      assert before + [last] == names;
    }
  }

  lemma NothingNamed()
    ensures Components("") == []
  {
    assert [""][1..] == [];
  }

  lemma ComponentsOfAbsolute(names: Place)
    requires forall i :: 0 <= i < |names| ==> IsName(names[i])
    ensures Components(Absolute(names)) == names
  {
    NothingNamed();
    hide Components, Absolute;
    ComponentsUnder("", names);
    assert "" + Absolute(names) == Absolute(names);
    assert [] + names == names;
  }

  lemma {:induction false} SplitAbsolute(names: Place)
    requires forall i :: 0 <= i < |names| ==> IsName(names[i])
    ensures Split(Absolute(names)) == [""] + names
  {
    if names == [] {
      assert [""] + names == [""];
    } else {
      hide Split;
      var before, last := names[..|names| - 1], names[|names| - 1];
      SplitAbsolute(before);
      SplitConcat(Absolute(before), last);
      SplitPlain(last);
      assert [""] + before + [last] == [""] + names;
    }
  }

  lemma {:induction false} AbsoluteConcat(a: Place, b: Place)
    ensures Absolute(a + b) == Absolute(a) + Absolute(b)
  {
    if b == [] {
      assert a + b == a && Absolute(a) + "" == Absolute(a);
    } else {
      var before, last := b[..|b| - 1], b[|b| - 1];
      assert (a + b)[..|a + b| - 1] == a + before;
      AbsoluteConcat(a, before);
      assert Absolute(a) + Absolute(before) + "/" + last == Absolute(a) + (Absolute(before) + "/" + last);
    }
  }
}
