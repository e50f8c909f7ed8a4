/** The .NET string primitives the helper functions are built from, on `seq<char>`. */
module Strings {

  /** String.IndexOf(char): the index of the first occurrence of `c`, or -1 when there is none. */
  function IndexOf(s: string, c: char): (r: int)
    ensures -1 <= r < |s|
    ensures r == -1 <==> c !in s
    ensures r >= 0 ==> s[r] == c && c !in s[..r]
  {
    if s == [] then -1
    else if s[0] == c then 0
    else
      var k := IndexOf(s[1..], c);
      assert s == [s[0]] + s[1..];
      if k == -1 then -1
      else
        assert s[..k + 1] == [s[0]] + s[1..][..k];
        k + 1
  }

  /** The number of occurrences of `c` in `s`. */
  function Count(s: string, c: char): nat {
    multiset(s)[c]
  }

  lemma CountCons(s: string, c: char)
    requires s != []
    ensures Count(s, c) == Count(s[1..], c) + (if s[0] == c then 1 else 0)
  {
    assert s == [s[0]] + s[1..];
  }

  lemma CountAppend(a: string, b: string, c: char)
    ensures Count(a + b, c) == Count(a, c) + Count(b, c)
  {
    assert multiset(a + b) == multiset(a) + multiset(b);
  }

  lemma MulSucc(n: nat, m: nat)
    ensures (n + 1) * m == n * m + m
  {}

  /** String.Replace(char-as-string, string): every occurrence of `c` replaced by `t`,
      scanning left to right. */
  function Replace(s: string, c: char, t: string): string {
    if s == [] then ""
    else (if s[0] == c then t else [s[0]]) + Replace(s[1..], c, t)
  }

  /** Each occurrence of `c` gives way to |t| characters; the others stay one each. */
  lemma {:induction false} ReplaceLength(s: string, c: char, t: string)
    ensures |Replace(s, c, t)| == |s| - Count(s, c) + Count(s, c) * |t|
  {
    if s != [] {
      ReplaceLength(s[1..], c, t);
      CountCons(s, c);
      MulSucc(Count(s[1..], c), |t|);
    }
  }

  /** No occurrence of `c` survives, unless the replacement brings it back. */
  lemma {:induction false} ReplaceRemoves(s: string, c: char, t: string)
    requires c !in t
    ensures c !in Replace(s, c, t)
  {
    if s != [] {
      ReplaceRemoves(s[1..], c, t);
    }
  }

  /** A character that is neither replaced nor in the replacement occurs as often as before. */
  lemma {:induction false} ReplaceKeepsCount(s: string, c: char, t: string, d: char)
    requires d != c && d !in t
    ensures Count(Replace(s, c, t), d) == Count(s, d)
  {
    if s != [] {
      var head := if s[0] == c then t else [s[0]];
      ReplaceKeepsCount(s[1..], c, t, d);
      CountAppend(head, Replace(s[1..], c, t), d);
      CountCons(s, d);
      assert Count(head, d) == if s[0] == d then 1 else 0;
    }
  }

  /** Replace distributes over concatenation. */
  lemma {:induction false} ReplaceAppend(a: string, b: string, c: char, t: string)
    ensures Replace(a + b, c, t) == Replace(a, c, t) + Replace(b, c, t)
  {
    if a == [] {
      assert a + b == b;
    } else {
      assert (a + b)[1..] == a[1..] + b;
      ReplaceAppend(a[1..], b, c, t);
    }
  }

  /** Replacing a character the text does not hold changes nothing. */
  lemma {:induction false} ReplaceAbsent(s: string, c: char, t: string)
    requires c !in s
    ensures Replace(s, c, t) == s
  {
    if s != [] {
      assert s[1..] == s[|[s[0]]|..];
      ReplaceAbsent(s[1..], c, t);
      assert s == [s[0]] + s[1..];
    }
  }

  /** Collapses every pair of backslashes into one: the inverse of doubling them. */
  function CollapseBackslashes(s: string): string {
    if |s| >= 2 && s[0] == '\\' && s[1] == '\\' then "\\" + CollapseBackslashes(s[2..])
    else if s == [] then ""
    else [s[0]] + CollapseBackslashes(s[1..])
  }

  /** Doubling every backslash loses nothing: collapsing the pairs gives the text back. */
  lemma {:induction false} CollapseDoubled(s: string)
    ensures CollapseBackslashes(Replace(s, '\\', "\\\\")) == s
  {
    if s != [] {
      CollapseDoubled(s[1..]);
      var rest := Replace(s[1..], '\\', "\\\\");
      assert Replace(s, '\\', "\\\\") == (if s[0] == '\\' then "\\\\" else [s[0]]) + rest;
      if s[0] == '\\' {
        assert ("\\\\" + rest)[2..] == rest;
      } else {
        assert ([s[0]] + rest)[1..] == rest;
      }
      assert s == [s[0]] + s[1..];
    }
  }
}
