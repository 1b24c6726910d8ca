/** The prefix order on sequences: paths as names from the root down, and texts. */
module Prefixes {
  /** A place on disk: the names from the file-system root down. */
  type Place = seq<string>

  /** Two prefixes of one sequence are prefixes of one another. */
  lemma PrefixesCompare<T>(a: seq<T>, b: seq<T>, whole: seq<T>)
    requires a <= whole && b <= whole
    ensures a <= b || b < a
  {
    assert a == whole[..|a|] && b == whole[..|b|];
    if |a| <= |b| {
      assert whole[..|b|][..|a|] == whole[..|a|];
    } else {
      assert whole[..|a|][..|b|] == whole[..|b|];
    }
  }

  lemma PrefixTransitive<T>(a: seq<T>, b: seq<T>, c: seq<T>)
    ensures a <= b && b <= c ==> a <= c
  {
    if a <= b && b <= c {
      assert b == c[..|b|] && a == b[..|a|];
    }
  }
}
