/** The Konami-code listener, the same in `js/script.js` and `script.js`: a
    position in the code that advances on the expected key, goes back to 0 on
    any other key, and fires (and goes back to 0) on the last key. */
module Konami {

  const Code: seq<string> := ["ArrowUp", "ArrowUp", "ArrowDown", "ArrowDown", "ArrowLeft", "ArrowRight"]

  /** The position after one more key. A wrong key resets to 0 without being
      compared with the first key of the code. */
  function Next(index: nat, key: string): (r: nat)
    requires index < |Code|
    ensures r < |Code|
  {
    if key == Code[index] then (if index + 1 == |Code| then 0 else index + 1) else 0
  }

  /** The position after typing `keys` from the start. */
  function IndexAfter(keys: seq<string>): (r: nat)
    ensures r < |Code|
  {
    if |keys| == 0 then 0 else Next(IndexAfter(keys[..|keys| - 1]), keys[|keys| - 1])
  }

  /** The last key of `keys` set off the easter egg. */
  predicate FiredBy(keys: seq<string>) {
    |keys| > 0 && IndexAfter(keys[..|keys| - 1]) == |Code| - 1 && keys[|keys| - 1] == Code[|Code| - 1]
  }

  /** The listener's state; `typed` records the keys seen so far. */
  class Matcher {
    var index: nat
    ghost var typed: seq<string>

    ghost predicate Valid()
      reads this
    {
      index == IndexAfter(typed)
    }

    constructor ()
      ensures Valid() && typed == [] && index == 0
    {
      index := 0;
      typed := [];
    }

    /** The `keydown` listener on the document. */
    method KeyDown(key: string) returns (fired: bool)
      requires Valid()
      modifies this
      ensures Valid()
      ensures typed == old(typed) + [key]
      ensures index < |Code|
      ensures fired == FiredBy(typed)
    {
      typed := typed + [key];
      assert typed[..|typed| - 1] == old(typed);
      fired := false;
      if key == Code[index] {
        index := index + 1;
        if index == |Code| {
          index := 0;
          fired := true;
        }
      } else {
        index := 0;
      }
    }
  }

  /** A non-zero position was reached by the expected key from the position before. */
  lemma Predecessor(keys: seq<string>)
    requires IndexAfter(keys) > 0
    ensures |keys| > 0 && IndexAfter(keys[..|keys| - 1]) == IndexAfter(keys) - 1
    ensures keys[|keys| - 1] == Code[IndexAfter(keys) - 1]
  {
  }

  /** Going back `j` keys from position `i >= j` gives position `i - j`. */
  lemma {:induction false} RunBack(keys: seq<string>, j: nat)
    requires j <= IndexAfter(keys)
    ensures j <= |keys| && IndexAfter(keys[..|keys| - j]) == IndexAfter(keys) - j
    decreases j
  {
    if j > 0 {
      Predecessor(keys);
      var init := keys[..|keys| - 1];
      RunBack(init, j - 1);
      assert init[..|init| - (j - 1)] == keys[..|keys| - j];
    } else {
      assert keys[..|keys|] == keys;
    }
  }

  /** The last `j` keys that led to position `i >= j` are the code from `i - j` to `i`. */
  lemma {:induction false} RunBackKeys(keys: seq<string>, j: nat)
    requires j <= IndexAfter(keys)
    ensures j <= |keys|
    ensures forall t :: |keys| - j <= t < |keys| ==> keys[t] == Code[IndexAfter(keys) - |keys| + t]
    decreases j
  {
    RunBack(keys, j);
    if j > 0 {
      Predecessor(keys);
      var init := keys[..|keys| - 1];
      RunBackKeys(init, j - 1);
      forall t | |keys| - j <= t < |keys| - 1 ensures keys[t] == Code[IndexAfter(keys) - |keys| + t] {
        assert keys[t] == init[t];
      }
    }
  }

  /** The position is the length of the part of the code that the typed keys
      end with. */
  lemma {:induction false} MatchedIsSuffix(keys: seq<string>)
    ensures IndexAfter(keys) <= |keys|
    ensures keys[|keys| - IndexAfter(keys)..] == Code[..IndexAfter(keys)]
  {
    var i := IndexAfter(keys);
    RunBackKeys(keys, i);
    var tail := keys[|keys| - i..];
    var code := Code[..i];
    forall t | 0 <= t < i ensures tail[t] == code[t] {
      var u := |keys| - i + t;
      assert tail[t] == keys[u];
      assert keys[u] == Code[i - |keys| + u];
    }
    assert tail == code;
  }

  lemma AppendSlice<T>(prefix: seq<T>, s: seq<T>, i: nat, n: nat)
    requires 0 < n && i + n <= |s|
    ensures prefix + s[i..i + n] == (prefix + s[i..i + n - 1]) + [s[i + n - 1]]
  {
    assert s[i..i + n] == s[i..i + n - 1] + [s[i + n - 1]];
  }

  /** One more key moves the position by `Next`. */
  lemma OneMore(keys: seq<string>, key: string)
    ensures IndexAfter(keys + [key]) == Next(IndexAfter(keys), key)
  {
    assert (keys + [key])[..|keys|] == keys;
  }

  /** From position `i`, typing the rest of the code step by step reaches each
      later position. */
  lemma {:induction false} TypeCode(prefix: seq<string>, i: nat, n: nat)
    requires i + n < |Code| && IndexAfter(prefix) == i
    ensures IndexAfter(prefix + Code[i..i + n]) == i + n
    decreases n
  {
    if n > 0 {
      TypeCode(prefix, i, n - 1);
      var key := Code[i + n - 1];
      var before := prefix + Code[i..i + n - 1];
      AppendSlice(prefix, Code, i, n);
      OneMore(before, key);
    } else {
      assert prefix + Code[i..i] == prefix;
    }
  }

  /** The easter egg fires exactly when the keys end with the whole code typed
      from position 0. */
  lemma {:induction false} FiresExactly(keys: seq<string>)
    ensures FiredBy(keys) <==>
              |keys| >= |Code| && keys[|keys| - |Code|..] == Code && IndexAfter(keys[..|keys| - |Code|]) == 0
  {
    if FiredBy(keys) {
      var init := keys[..|keys| - 1];
      RunBack(init, |Code| - 1);
      RunBackKeys(init, |Code| - 1);
      assert init[..|init| - (|Code| - 1)] == keys[..|keys| - |Code|];
      assert keys[|keys| - |Code|..] == init[|init| - (|Code| - 1)..] + [keys[|keys| - 1]];
    }
    if |keys| >= |Code| && keys[|keys| - |Code|..] == Code && IndexAfter(keys[..|keys| - |Code|]) == 0 {
      var prefix := keys[..|keys| - |Code|];
      TypeCode(prefix, 0, |Code| - 1);
      assert keys[..|keys| - 1] == prefix + Code[0..|Code| - 1];
    }
  }

  /** A fresh listener fires on the code. */
  lemma CodeFires()
    ensures FiredBy(Code)
  {
    FiresExactly(Code);
    assert Code[..0] == [];
  }

  /** An extra ArrowUp before the code keeps it from firing: the third
      ArrowUp resets the position to 0 instead of keeping it at 2. */
  lemma NoRestart()
    ensures !FiredBy(["ArrowUp"] + Code)
  {
    var keys := ["ArrowUp"] + Code;
    FiresExactly(keys);
    assert keys[..1] == ["ArrowUp"];
    assert IndexAfter(keys[..1][..0]) == 0;
  }
}
