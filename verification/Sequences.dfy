/** Regrouping of concatenations, each fact on its own. */
module Sequences {
  lemma Assoc<T>(a: seq<T>, b: seq<T>, c: seq<T>)
    ensures a + b + c == a + (b + c)
  {
  }

  lemma Regroup<T>(a: seq<T>, b: seq<T>, c: seq<T>, d: seq<T>)
    ensures a + b + c + d == a + (b + (c + d))
    ensures a + b + (c + d) == a + b + c + d
  {
  }

  lemma RegroupFive<T>(a: seq<T>, b: seq<T>, c: seq<T>, d: seq<T>, e: seq<T>)
    ensures (a + b + c + d) + e == a + (b + (c + (d + e)))
  {
  }

  lemma Widen<T>(a: seq<T>, b: seq<T>, c: seq<T>, d: seq<T>, e: seq<T>)
    ensures (a + b) + c + d + e == a + (b + c + d + e)
  {
  }

  lemma TakePrefix<T>(a: seq<T>, s: seq<T>)
    requires a <= s
    ensures s == a + s[|a|..]
  {
  }

  lemma DropPrefix<T>(a: seq<T>, b: seq<T>)
    ensures a <= a + b && (a + b)[|a|..] == b
  {
  }

  lemma SliceOfDrop<T>(s: seq<T>, n: nat, i: nat, j: nat)
    requires n <= |s| && i <= j <= |s| - n
    ensures s[n..][i..j] == s[n + i..n + j]
  {
  }

  lemma DropFirst<T>(x: T, s: seq<T>)
    ensures ([x] + s)[0] == x && ([x] + s)[1..] == s
  {
  }

  /** The first element joins what makes up the rest. */
  lemma JoinFirst<T>(s: seq<T>, a: seq<T>, b: seq<T>)
    requires s != [] && s[1..] == a + b
    ensures s == ([s[0]] + a) + b
  {
  }

  /** The last element joins what makes up the rest. */
  lemma JoinLast<T>(s: seq<T>, a: seq<T>, b: seq<T>)
    requires s != [] && s[..|s| - 1] == a + b
    ensures s == a + (b + [s[|s| - 1]])
  {
  }
}
