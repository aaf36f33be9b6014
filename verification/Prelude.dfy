// Small shared vocabulary: optional values (SQL NULL, Go nil pointers), clients, and lists read as sets.
module Prelude {

  datatype Option<+T> = None | Some(value: T)

  /** A sync client is one device of a user. */
  datatype ClientId = ClientId(username: string, device: string)

  /**
   strconv.Atoi: the number and whether the text was one. A malformed text gives zero, one out of
   range the nearest number.
   */
  type Atoi = string -> (int, bool)

  /** The distinct elements of a list. */
  function SetOf<T(!new)>(xs: seq<T>): (s: set<T>)
    ensures forall x :: x in s <==> x in xs
  {
    set x | x in xs
  }

  ghost predicate NoDuplicates<T>(xs: seq<T>) {
    forall i, j :: 0 <= i < j < |xs| ==> xs[i] != xs[j]
  }

  lemma ConcatNoDuplicates<T(!new)>(xs: seq<T>, ys: seq<T>)
    requires NoDuplicates(xs) && NoDuplicates(ys) && forall x :: x in xs ==> x !in ys
    ensures NoDuplicates(xs + ys)
  {
    forall i, j | 0 <= i < j < |xs + ys| ensures (xs + ys)[i] != (xs + ys)[j] {
      if i < |xs| <= j {
        assert xs[i] in xs && ys[j - |xs|] in ys;
      }
    }
  }

  /** The elements of a list that are not in `drop`, in order, repetitions kept. */
  function Without<T(==,!new)>(xs: seq<T>, drop: set<T>): (r: seq<T>)
    ensures forall x :: x in r <==> x in xs && x !in drop
  {
    if xs == [] then []
    else
      var init, last := xs[..|xs| - 1], xs[|xs| - 1];
      assert xs == init + [last];
      if last in drop then Without(init, drop) else Without(init, drop) + [last]
  }

  /** In order and with repetitions: of two lists put together the rest is the rests put together. */
  lemma {:induction false} WithoutAppend<T(!new)>(xs: seq<T>, ys: seq<T>, drop: set<T>)
    ensures Without(xs + ys, drop) == Without(xs, drop) + Without(ys, drop)
  {
    if ys == [] {
      assert xs + ys == xs;
    } else {
      assert (xs + ys)[..|xs + ys| - 1] == xs + ys[..|ys| - 1];
      WithoutAppend(xs, ys[..|ys| - 1], drop);
    }
  }

  /** `m` holds some of the entries of `n`, unchanged. */
  ghost predicate Submap<K, V>(m: map<K, V>, n: map<K, V>) {
    forall k :: k in m ==> k in n && m[k] == n[k]
  }

  /** The rows of a SELECT without ORDER BY: every element once, in no particular order. */
  method Enumerate<T(==,!new)>(s: set<T>) returns (xs: seq<T>)
    ensures SetOf(xs) == s && NoDuplicates(xs)
  {
    xs := [];
    var todo := s;
    while todo != {}
      invariant SetOf(xs) + todo == s && SetOf(xs) !! todo
      invariant NoDuplicates(xs)
    {
      var x :| x in todo;
      xs := xs + [x];
      todo := todo - {x};
    }
  }
}
