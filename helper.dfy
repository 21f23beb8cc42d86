/**
 * The general-purpose helpers of Helper.java the puzzle core relies on:
 * list difference, a filled 2D array, the bracketed list renderings and
 * title-casing of noun names.
 */
module Helper {
  import opened Wrappers

  /** The elements of `xs` that do not occur in `ys`, in order and with multiplicity. */
  function Except<T(==)>(xs: seq<T>, ys: seq<T>): (r: seq<T>)
    ensures |r| <= |xs|
    ensures forall x :: x in r ==> x in xs && x !in ys
  {
    if |xs| == 0 then []
    else Except(xs[..|xs| - 1], ys) + (if xs[|xs| - 1] in ys then [] else [xs[|xs| - 1]])
  }

  /** Each element keeps its multiplicity in `xs` unless it occurs in `ys`, where it has none. */
  lemma {:induction false} ExceptMultiplicity<T>(xs: seq<T>, ys: seq<T>, x: T)
    ensures multiset(Except(xs, ys))[x] == if x in ys then 0 else multiset(xs)[x]
  {
    if |xs| > 0 {
      var init, last := xs[..|xs| - 1], xs[|xs| - 1];
      assert xs == init + [last];
      ExceptMultiplicity(init, ys, x);
    }
  }

  /** getListExcept: the nouns of `nouns1` that are not in `nouns2`. */
  method GetListExcept<T(==)>(nouns1: seq<T>, nouns2: seq<T>) returns (nouns: seq<T>)
    ensures nouns == Except(nouns1, nouns2)
  {
    nouns := [];
    var i := 0;
    while i < |nouns1|
      invariant 0 <= i <= |nouns1|
      invariant nouns == Except(nouns1[..i], nouns2)
    {
      var noun1 := nouns1[i];
      var found := false;
      var j := 0;
      while j < |nouns2|
        invariant 0 <= j <= |nouns2|
        invariant found <==> noun1 in nouns2[..j]
      {
        if noun1 == nouns2[j] {
          found := true;
          break;
        }
        j := j + 1;
      }
      assert found <==> noun1 in nouns2 by {
        if !found { assert nouns2[..j] == nouns2; }
      }
      if !found {
        nouns := nouns + [noun1];
      }
      assert nouns1[..i + 1][..i] == nouns1[..i];
      i := i + 1;
    }
    assert nouns1[..i] == nouns1;
  }

  /** getArrayExcept: the same difference as getListExcept, delivered as a fresh array. */
  method GetArrayExcept<T(==)>(nouns1: array<T>, nouns2: array<T>) returns (nouns: array<T>)
    ensures fresh(nouns)
    ensures nouns[..] == Except(nouns1[..], nouns2[..])
  {
    var list := GetListExcept(nouns1[..], nouns2[..]);
    nouns := new T[|list|](i requires 0 <= i < |list| => list[i]);
    assert nouns[..] == list;
  }

  /** getArray2D: a fresh d1 x d2 array whose every cell is `v` (the int and Verb overloads). */
  method GetArray2D<T(0)>(d1: nat, d2: nat, v: T) returns (a: array2<T>)
    ensures fresh(a)
    ensures a.Length0 == d1 && a.Length1 == d2
    ensures forall i1, i2 :: 0 <= i1 < d1 && 0 <= i2 < d2 ==> a[i1, i2] == v
  {
    a := new T[d1, d2];
    var i1 := 0;
    while i1 < d1
      invariant 0 <= i1 <= d1
      invariant forall r, c :: 0 <= r < i1 && 0 <= c < d2 ==> a[r, c] == v
    {
      var i2 := 0;
      while i2 < d2
        invariant 0 <= i2 <= d2
        invariant forall r, c :: 0 <= r < i1 && 0 <= c < d2 ==> a[r, c] == v
        invariant forall c :: 0 <= c < i2 ==> a[i1, c] == v
      {
        a[i1, i2] := v;
        i2 := i2 + 1;
      }
      i1 := i1 + 1;
    }
  }

  /** The items separated by `sep`, with no separator before the first or after the last. */
  function Join(items: seq<string>, sep: string): (r: string)
  {
    if |items| == 0 then ""
    else if |items| == 1 then items[0]
    else Join(items[..|items| - 1], sep) + sep + items[|items| - 1]
  }

  /** Total length of the items. */
  function TotalLength(items: seq<string>): nat
  {
    if |items| == 0 then 0 else TotalLength(items[..|items| - 1]) + |items[|items| - 1]|
  }

  /** A join is as long as its items plus one separator between each neighbouring pair. */
  lemma {:induction false} JoinLength(items: seq<string>, sep: string)
    requires |items| > 0
    ensures |Join(items, sep)| == TotalLength(items) + (|items| - 1) * |sep|
  {
    if |items| > 1 {
      var n := |items|;
      JoinLength(items[..n - 1], sep);
      assert (n - 1) * |sep| == (n - 2) * |sep| + |sep|;
    }
  }

  /** Renders `objs` (already converted to text) between `open` and `close`, or "" when absent. */
  method Enclose(objs: Option<seq<string>>, sep0: string, open: string, close: string) returns (msg: string)
    ensures objs.None? ==> msg == ""
    ensures objs.Some? ==> msg == open + Join(objs.value, sep0) + close
  {
    msg := "";
    if objs.Some? {
      var items := objs.value;
      msg := open;
      var sep := "";
      var i := 0;
      while i < |items|
        invariant 0 <= i <= |items|
        invariant msg == open + Join(items[..i], sep0)
        invariant sep == if i == 0 then "" else sep0
      {
        assert items[..i + 1][..i] == items[..i];
        msg := msg + sep + items[i];
        sep := sep0;
        i := i + 1;
      }
      assert items[..i] == items;
      msg := msg + close;
    }
  }

  /** getArrayAsString: "" for a null array, else "{" + elements joined by sep0 + "}". */
  method GetArrayAsString(objs: Option<seq<string>>, sep0: string) returns (msg: string)
    ensures objs.None? ==> msg == ""
    ensures objs.Some? ==> msg == "{" + Join(objs.value, sep0) + "}"
  {
    msg := Enclose(objs, sep0, "{", "}");
  }

  /** getListAsString: "" for a null list, else "[" + elements joined by sep0 + "]". */
  method GetListAsString(objs: Option<seq<string>>, sep0: string) returns (msg: string)
    ensures objs.None? ==> msg == ""
    ensures objs.Some? ==> msg == "[" + Join(objs.value, sep0) + "]"
  {
    msg := Enclose(objs, sep0, "[", "]");
  }

  /** Position `i` of `s` begins a word: it is not a space and is first or follows a space. */
  predicate StartsWord(s: string, i: nat, isSpace: char -> bool)
    requires i < |s|
  {
    !isSpace(s[i]) && (i == 0 || isSpace(s[i - 1]))
  }

  /** The string with every word-initial character mapped by `toTitle` and every other character kept. */
  function TitleCased(s: string, isSpace: char -> bool, toTitle: char -> char): (r: string)
    ensures |r| == |s|
    ensures forall i :: 0 <= i < |s| && isSpace(s[i]) ==> r[i] == s[i]
    ensures forall i :: 0 <= i < |s| && r[i] != s[i] ==> i == 0 || isSpace(s[i - 1])
  {
    seq(|s|, i requires 0 <= i < |s| => if StartsWord(s, i, isSpace) then toTitle(s[i]) else s[i])
  }

  /**
   * toTitleCase over the character classifier `isSpace` and the character
   * mapping `toTitle`, scanning once with a "next character starts a word" flag.
   */
  method ToTitleCase(str: string, isSpace: char -> bool, toTitle: char -> char) returns (rs: string)
    ensures rs == TitleCased(str, isSpace, toTitle)
  {
    rs := "";
    var flag := true;
    var i := 0;
    while i < |str|
      invariant 0 <= i <= |str|
      invariant |rs| == i
      invariant flag <==> i == 0 || isSpace(str[i - 1])
      invariant forall k :: 0 <= k < i ==>
                  rs[k] == if StartsWord(str, k, isSpace) then toTitle(str[k]) else str[k]
    {
      var c := str[i];
      if isSpace(c) {
        flag := true;
      } else if flag {
        c := toTitle(c);
        flag := false;
      } else {
        flag := false;
      }
      rs := rs + [c];
      i := i + 1;
    }
  }

  /** Character.isSpaceChar: the Unicode space, line and paragraph separators (categories Zs, Zl, Zp). */
  predicate IsSpaceChar(c: char)
  {
    c == '\U{0020}' || c == '\U{00A0}' || c == '\U{1680}' || ('\U{2000}' <= c <= '\U{200A}') ||
    c == '\U{2028}' || c == '\U{2029}' || c == '\U{202F}' || c == '\U{205F}' || c == '\U{3000}'
  }

  /** Character.toTitleCase restricted to ASCII: a lower-case Latin letter becomes its own capital. */
  function TitleCaseChar(c: char): (t: char)
    ensures 'a' <= c <= 'z' ==> 'A' <= t <= 'Z' && t as int - 'A' as int == c as int - 'a' as int
    ensures !('a' <= c <= 'z') ==> t == c
  {
    if 'a' <= c <= 'z' then (c as int - 32) as char else c
  }
}
