/** Shared vocabulary of the model: optional values and success-or-error results. */
module Basics {

  /** A value that may be missing (a PHP `null`, a row that was not found). */
  datatype Option<+T> = None | Some(value: T)

  /** The outcome of an operation that either yields a value or fails with an error. */
  datatype Result<+T, +E> = Ok(value: T) | Err(error: E)

  function Min(a: int, b: int): int
  {
    if a <= b then a else b
  }

  /** The `key` of each element of `s`, in order: a column of a table. */
  function Project<T>(s: seq<T>, key: T -> int): (keys: seq<int>)
    ensures |keys| == |s|
    ensures forall i {:trigger keys[i]} :: 0 <= i < |s| ==> keys[i] == key(s[i])
  {
    if |s| == 0 then [] else [key(s[0])] + Project(s[1..], key)
  }

  /** No integer occurs twice in `xs`. */
  predicate NoDuplicates(xs: seq<int>)
  {
    forall i, j :: 0 <= i < j < |xs| ==> xs[i] != xs[j]
  }

  /** Prepending keeps a sequence free of duplicates exactly when the new element is not in it. */
  lemma NoDuplicatesCons(x: int, xs: seq<int>)
    ensures NoDuplicates([x] + xs) <==> NoDuplicates(xs) && x !in xs
  {
    var s := [x] + xs;
    if NoDuplicates(xs) && x !in xs {
      forall i, j | 0 <= i < j < |s| ensures s[i] != s[j] {
        assert s[j] == xs[j - 1];
        if i > 0 {
          assert s[i] == xs[i - 1];
        }
      }
    }
    if NoDuplicates(s) {
      forall i, j | 0 <= i < j < |xs| ensures xs[i] != xs[j] {
        assert s[i + 1] == xs[i] && s[j + 1] == xs[j];
      }
      forall j | 0 <= j < |xs| ensures xs[j] != x {
        assert s[0] == x && s[j + 1] == xs[j];
      }
    }
  }
}
