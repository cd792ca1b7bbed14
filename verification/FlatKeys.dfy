/** The key that the flattener gives to a leaf of a property tree, and how to read it back.
    Every level repeats the whole prefix before it, so a__b__c becomes a__a__b__c. */
module FlatKeys {
  import opened Text
  import opened Power

  /** The object keys from the root down to a leaf. */
  type Path = p: seq<Str> | p != [] witness [[]]

  const UNDERSCORE: Byte := 95
  const SEPARATOR: Str := [UNDERSCORE, UNDERSCORE]

  /** The prefix handed down to the fields of the object at `path`. */
  function Prefix(path: seq<Str>): Str {
    if path == [] then []
    else
      var prefix := Prefix(path[..|path| - 1]);
      prefix + (prefix + path[|path| - 1]) + SEPARATOR
  }

  function FlatKey(path: Path): Str {
    Prefix(path[..|path| - 1]) + path[|path| - 1]
  }

  // ---------------------------------------------------------------------------
  // Growth
  // ---------------------------------------------------------------------------

  /** The i-th key of an object path, with its separator, occurs 2^(n-1-i) times. */
  function Growth(path: seq<Str>): nat {
    if path == [] then 0 else Pow2(|path| - 1) * (|path[0]| + 2) + Growth(path[1..])
  }

  lemma {:induction false} GrowthFromRight(path: seq<Str>)
    requires path != []
    ensures Growth(path) == 2 * Growth(path[..|path| - 1]) + |path[|path| - 1]| + 2
  {
    if |path| > 1 {
      var init := path[..|path| - 1];
      assert init[1..] == path[1..][..|path| - 2];
      GrowthFromRight(path[1..]);
      Associative(2, Pow2(|path| - 2), |path[0]| + 2);
    } else {
      assert Pow2(0) * (|path[0]| + 2) == |path[0]| + 2;
    }
  }

  lemma {:induction false} PrefixLength(path: seq<Str>)
    ensures |Prefix(path)| == Growth(path)
  {
    if path != [] {
      PrefixLength(path[..|path| - 1]);
      GrowthFromRight(path);
    }
  }

  /** The length of a flat key in closed form. */
  lemma KeyLength(path: Path)
    ensures |FlatKey(path)| == |path[|path| - 1]| + Growth(path[..|path| - 1])
  {
    PrefixLength(path[..|path| - 1]);
  }

  /** The keys of a path joined by the separator. */
  function Join(path: Path): Str {
    if |path| == 1 then path[0] else Join(path[..|path| - 1]) + SEPARATOR + path[|path| - 1]
  }

  lemma {:induction false} PrefixAgainstJoin(path: Path)
    ensures |path| == 1 ==> Prefix(path) == Join(path) + SEPARATOR
    ensures |path| >= 2 ==> |Prefix(path)| > |Join(path) + SEPARATOR|
  {
    if |path| >= 2 {
      PrefixAgainstJoin(path[..|path| - 1]);
    }
  }

  /** The flat key is the plain join of the path exactly for at most one level of nesting. */
  lemma PlainJoinExactly(path: Path)
    ensures FlatKey(path) == Join(path) <==> |path| <= 2
  {
    if |path| >= 2 {
      PrefixAgainstJoin(path[..|path| - 1]);
    }
  }

  /** The key one level further down: what stands before the last name, the whole key, two
      underscores and the new name. */
  lemma KeyBelow(path: Path, name: Str)
    ensures var key, last := FlatKey(path), path[|path| - 1];
            && |last| <= |key| && key[|key| - |last|..] == last
            && FlatKey(path + [name]) == key[..|key| - |last|] + key + Ascii("__") + name
    ensures FlatKey([name]) == name
  {
    var below: Path := path + [name];
    assert below[..|path|] == path;
    assert Ascii("__") == SEPARATOR;
    var above, key, last := Prefix(path[..|path| - 1]), FlatKey(path), path[|path| - 1];
    assert key[..|key| - |last|] == above;
    assert Prefix(path) == above + key + SEPARATOR;
    KeyOfOne(name);
  }

  // ---------------------------------------------------------------------------
  // Reading a key back
  // ---------------------------------------------------------------------------

  /** Where the first separator starts, or the length if there is none. */
  function Cut(s: Str): (i: nat)
    ensures i == |s| || (i + 2 <= |s| && s[i] == UNDERSCORE && s[i + 1] == UNDERSCORE)
  {
    if |s| < 2 then |s|
    else if s[0] == UNDERSCORE && s[1] == UNDERSCORE then 0
    else 1 + Cut(s[1..])
  }

  function Tokens(s: Str): (ts: seq<Str>)
    ensures ts != []
  {
    if Cut(s) == |s| then [s] else [s[..Cut(s)]] + Tokens(s[Cut(s) + 2..])
  }

  /** No separator inside. */
  predicate Unbroken(key: Str) {
    Cut(key) == |key|
  }

  /** No separator inside, nor one that starts with the last byte. */
  predicate Separable(key: Str) {
    Unbroken(key) && (key != [] ==> key[|key| - 1] != UNDERSCORE)
  }

  predicate AllSeparable(keys: seq<Str>) {
    forall i :: 0 <= i < |keys| ==> Separable(keys[i])
  }

  /** What a caller can check before sending a property at this path. */
  predicate Readable(path: Path) {
    AllSeparable(path[..|path| - 1]) && Unbroken(path[|path| - 1])
  }

  /** Two underscores at position `i`. */
  predicate UnderscoresAt(key: Str, i: nat) {
    i + 1 < |key| && key[i] == '_' as int && key[i + 1] == '_' as int
  }

  lemma {:induction false} UnbrokenExactly(key: Str)
    ensures Unbroken(key) <==> forall i: nat :: !UnderscoresAt(key, i)
  {
    if UnderscoresAt(key, 0) {
    } else if |key| >= 2 {
      UnbrokenExactly(key[1..]);
      assert forall i: nat :: UnderscoresAt(key[1..], i) <==> UnderscoresAt(key, i + 1);
      if i: nat :| UnderscoresAt(key, i) {
        assert UnderscoresAt(key[1..], i - 1);
      }
    }
  }

  /** Readable means: no name has two underscores in a row, and none but the last ends in one. */
  lemma ReadableExactly(path: Path)
    ensures Readable(path) <==>
      && (forall j, i: nat :: 0 <= j < |path| ==> !UnderscoresAt(path[j], i))
      && (forall j :: 0 <= j < |path| - 1 && path[j] != [] ==> path[j][|path[j]| - 1] != '_' as int)
  {
    forall j | 0 <= j < |path| ensures Unbroken(path[j]) <==> forall i: nat :: !UnderscoresAt(path[j], i) {
      UnbrokenExactly(path[j]);
    }
    assert forall j :: 0 <= j < |path| - 1 ==> path[..|path| - 1][j] == path[j];
  }

  /** The keys of a prefix in order, each as often as it occurs. */
  function Doubled(path: seq<Str>): seq<Str> {
    if path == [] then []
    else Doubled(path[..|path| - 1]) + Doubled(path[..|path| - 1]) + [path[|path| - 1]]
  }

  function Undoubled(keys: seq<Str>): (path: seq<Str>)
    ensures forall i :: 0 <= i < |path| ==> path[i] in keys
  {
    if keys == [] then [] else Undoubled(keys[..(|keys| - 1) / 2]) + [keys[|keys| - 1]]
  }

  /** The inverse of `FlatKey`. */
  function PathOf(key: Str): Path {
    var ts := Tokens(key);
    Undoubled(ts[..|ts| - 1]) + [ts[|ts| - 1]]
  }

  function Terminated(keys: seq<Str>): Str {
    if keys == [] then [] else keys[0] + SEPARATOR + Terminated(keys[1..])
  }

  lemma {:induction false} TerminatedConcat(a: seq<Str>, b: seq<Str>)
    ensures Terminated(a + b) == Terminated(a) + Terminated(b)
  {
    if a == [] {
      assert a + b == b;
    } else {
      TerminatedConcat(a[1..], b);
      assert (a + b)[0] == a[0] && (a + b)[1..] == a[1..] + b;
    }
  }

  lemma {:induction false} PrefixIsTerminated(path: seq<Str>)
    ensures Prefix(path) == Terminated(Doubled(path))
  {
    if path != [] {
      var init, last := path[..|path| - 1], path[|path| - 1];
      PrefixIsTerminated(init);
      TerminatedConcat(Doubled(init), Doubled(init));
      TerminatedConcat(Doubled(init) + Doubled(init), [last]);
      assert Terminated([last]) == last + SEPARATOR;
    }
  }

  lemma {:induction false} CutAfterSeparable(key: Str, rest: Str)
    requires Separable(key)
    ensures Cut(key + SEPARATOR + rest) == |key|
  {
    var s := key + SEPARATOR + rest;
    if key != [] {
      CutAfterSeparable(key[1..], rest);
      assert s[1..] == key[1..] + SEPARATOR + rest;
    }
  }

  lemma TokensAfterSeparable(key: Str, rest: Str)
    requires Separable(key)
    ensures Tokens(key + SEPARATOR + rest) == [key] + Tokens(rest)
  {
    var s := key + SEPARATOR + rest;
    CutAfterSeparable(key, rest);
    assert s[..|key|] == key && s[|key| + 2..] == rest;
  }

  lemma {:induction false} TokensOfTerminated(keys: seq<Str>, last: Str)
    requires AllSeparable(keys) && Unbroken(last)
    ensures Tokens(Terminated(keys) + last) == keys + [last]
  {
    if keys == [] {
      assert Terminated(keys) + last == last;
    } else {
      var rest := Terminated(keys[1..]) + last;
      assert Terminated(keys) + last == keys[0] + SEPARATOR + rest;
      TokensAfterSeparable(keys[0], rest);
      TokensOfTerminated(keys[1..], last);
      assert [keys[0]] + (keys[1..] + [last]) == keys + [last];
    }
  }

  lemma {:induction false} DoubledKeepsSeparable(path: seq<Str>)
    requires AllSeparable(path)
    ensures AllSeparable(Doubled(path))
  {
    if path != [] {
      DoubledKeepsSeparable(path[..|path| - 1]);
    }
  }

  lemma Half(half: seq<Str>, last: Str)
    ensures Undoubled(half + half + [last]) == Undoubled(half) + [last]
  {
    var keys := half + half + [last];
    assert (|keys| - 1) / 2 == |half| && keys[..|half|] == half;
  }

  lemma {:induction false} UndoubledDoubled(path: seq<Str>)
    ensures Undoubled(Doubled(path)) == path
  {
    if path != [] {
      var init, last := path[..|path| - 1], path[|path| - 1];
      UndoubledDoubled(init);
      Half(Doubled(init), last);
    }
  }

  lemma {:induction false} CutIsSeparable(s: Str)
    requires Cut(s) < |s|
    ensures Separable(s[..Cut(s)])
  {
    if !(s[0] == UNDERSCORE && s[1] == UNDERSCORE) {
      CutIsSeparable(s[1..]);
      assert s[..Cut(s)][1..] == s[1..][..Cut(s[1..])];
    }
  }

  lemma {:induction false} TokensAreSeparable(s: Str)
    ensures AllSeparable(Tokens(s)[..|Tokens(s)| - 1]) && Unbroken(Tokens(s)[|Tokens(s)| - 1])
  {
    if Cut(s) < |s| {
      var rest := Tokens(s[Cut(s) + 2..]);
      CutIsSeparable(s);
      TokensAreSeparable(s[Cut(s) + 2..]);
      assert Tokens(s)[..|Tokens(s)| - 1] == [s[..Cut(s)]] + rest[..|rest| - 1];
    }
  }

  /** Every path read from a key is readable. */
  lemma PathOfIsReadable(key: Str)
    ensures Readable(PathOf(key))
  {
    TokensAreSeparable(key);
    var ts := Tokens(key);
    var keys := Undoubled(ts[..|ts| - 1]);
    assert PathOf(key)[..|PathOf(key)| - 1] == keys;
  }

  /** A path can be read back from its key exactly when its keys hide no separator. */
  lemma ReadsBackExactly(path: Path)
    ensures PathOf(FlatKey(path)) == path <==> Readable(path)
  {
    PathOfIsReadable(FlatKey(path));
    if Readable(path) {
      var init, last := path[..|path| - 1], path[|path| - 1];
      PrefixIsTerminated(init);
      DoubledKeepsSeparable(init);
      TokensOfTerminated(Doubled(init), last);
      UndoubledDoubled(init);
      assert (Doubled(init) + [last])[..|Doubled(init)|] == Doubled(init);
    }
  }

  /** Distinct readable paths get distinct keys. */
  lemma KeysAreDistinct(p: Path, q: Path)
    requires Readable(p) && Readable(q) && FlatKey(p) == FlatKey(q)
    ensures p == q
  {
    ReadsBackExactly(p);
    ReadsBackExactly(q);
  }

  lemma {:induction false} SeparatorBreaks(before: Str, after: Str)
    ensures !Unbroken(before + SEPARATOR + after)
  {
    var s := before + SEPARATOR + after;
    if before != [] {
      SeparatorBreaks(before[1..], after);
      assert s[1..] == before[1..] + SEPARATOR + after;
    }
  }

  lemma KeyOfOne(key: Str)
    ensures FlatKey([key]) == key
  {
    var path: Path := [key];
    assert path[..0] == [];
  }

  lemma KeyOfTwo(outer: Str, inner: Str)
    ensures FlatKey([outer, inner]) == outer + SEPARATOR + inner
  {
    var path: Path := [outer, inner];
    assert path[..1] == [outer] && [outer][..0] == [];
    assert Prefix([outer]) == outer + SEPARATOR;
  }

  lemma NestedKeyIsBroken(path: Path)
    requires |path| >= 2
    ensures !Unbroken(FlatKey(path))
  {
    var init := path[..|path| - 1];
    var before := Prefix(init[..|init| - 1]);
    SeparatorBreaks(before + (before + init[|init| - 1]), path[|path| - 1]);
  }

  /** Another path with the same key: a nested path shares its key with the field that has it
      as its name, and a name with a separator shares it with the path split there. */
  lemma KeysCollide(p: Path) returns (q: Path)
    requires !(|p| == 1 && Unbroken(p[0]))
    ensures q != p && FlatKey(q) == FlatKey(p)
  {
    if |p| >= 2 {
      q := [FlatKey(p)];
      KeyOfOne(FlatKey(p));
    } else {
      var key, i := p[0], Cut(p[0]);
      q := [key[..i], key[i + 2..]];
      KeyOfOne(key);
      KeyOfTwo(key[..i], key[i + 2..]);
      assert p == [key];
    }
  }

  /** No other path has the key of this one exactly if it is a single name without a separator. */
  lemma KeyIsUniqueExactly(p: Path)
    ensures (forall q: Path :: FlatKey(q) == FlatKey(p) ==> q == p) <==> |p| == 1 && Unbroken(p[0])
  {
    if |p| == 1 && Unbroken(p[0]) {
      KeyOfOne(p[0]);
      assert p == [p[0]];
      forall q: Path | FlatKey(q) == FlatKey(p) ensures q == p {
        if |q| >= 2 {
          NestedKeyIsBroken(q);
        } else {
          KeyOfOne(q[0]);
          assert q == [q[0]];
        }
      }
    } else {
      var _ := KeysCollide(p);
    }
  }
}
