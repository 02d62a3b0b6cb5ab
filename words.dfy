/** The string helpers the hash parser chains together: JavaScript's
    `String.prototype.split` with a one-character separator, `Array.prototype.map`
    and `Array.prototype.join`. */
module Words {

  /** Number of occurrences of `c` in `s`. */
  function Count(s: string, c: char): nat
  {
    if s == [] then 0 else (if s[0] == c then 1 else 0) + Count(s[1..], c)
  }

  /** `s.split(sep)`: the pieces of `s` between occurrences of `sep`, in order.
      There is one more piece than there are separators, so the empty string
      gives one empty piece, and no piece contains the separator. */
  function Split(s: string, sep: char): (r: seq<string>)
    ensures |r| == Count(s, sep) + 1
    ensures forall k :: 0 <= k < |r| ==> sep !in r[k]
  {
    if s == [] then [[]]
    else
      var rest := Split(s[1..], sep);
      if s[0] == sep then [[]] + rest
      else [[s[0]] + rest[0]] + rest[1..]
  }

  /** `words.join(sep)`: the empty list joins to the empty string. */
  function Join(words: seq<string>, sep: string): string
  {
    if |words| == 0 then []
    else if |words| == 1 then words[0]
    else words[0] + sep + Join(words[1..], sep)
  }

  /** `words.map(f)`. */
  function Map(f: string -> string, words: seq<string>): seq<string>
  {
    seq(|words|, k requires 0 <= k < |words| => f(words[k]))
  }

  /** Reference definition: `s` with every `c` replaced by `d`, position by position. */
  function Replace(s: string, c: char, d: char): string
  {
    seq(|s|, i requires 0 <= i < |s| => if s[i] == c then d else s[i])
  }

  /** Splitting on `c` and joining with `d` handles the first character on its own. */
  lemma {:induction false} JoinSplitCons(s: string, c: char, d: char)
    requires s != []
    ensures Join(Split(s, c), [d]) == [if s[0] == c then d else s[0]] + Join(Split(s[1..], c), [d])
  {
  }

  /** `s.split(c).join(d)` replaces every `c` by `d` and keeps everything else. */
  lemma {:induction false} JoinSplitIsReplace(s: string, c: char, d: char)
    ensures Join(Split(s, c), [d]) == Replace(s, c, d)
  {
    if s != [] {
      JoinSplitCons(s, c, d);
      JoinSplitIsReplace(s[1..], c, d);
      assert Replace(s, c, d) == [if s[0] == c then d else s[0]] + Replace(s[1..], c, d);
    }
  }

  /** Joining the pieces back with the separator restores the string. */
  lemma JoinSplit(s: string, c: char)
    ensures Join(Split(s, c), [c]) == s
  {
  }

  /** A string without the separator is a single piece. */
  lemma {:induction false} SplitWithout(s: string, c: char)
    requires c !in s
    ensures Split(s, c) == [s]
  {
    if s != [] {
      assert c !in s[1..];
      SplitWithout(s[1..], c);
      assert [s[0]] + s[1..] == s;
    }
  }

  /** A separator-free prefix followed by a separator is the first piece. */
  lemma {:induction false} SplitAfter(a: string, b: string, c: char)
    requires c !in a
    ensures Split(a + [c] + b, c) == [a] + Split(b, c)
  {
    if a == [] {
      assert a + [c] + b == [c] + b;
      assert ([c] + b)[1..] == b;
    } else {
      assert (a + [c] + b)[1..] == a[1..] + [c] + b;
      assert c !in a[1..];
      SplitAfter(a[1..], b, c);
      assert [a[0]] + a[1..] == a;
    }
  }

  /** Two separator-free words around one separator split into those two words. */
  lemma SplitTwoWords(a: string, b: string, c: char)
    requires c !in a && c !in b
    ensures Split(a + [c] + b, c) == [a, b]
  {
    SplitAfter(a, b, c);
    SplitWithout(b, c);
  }

  /** Splitting a join of separator-free words gives the words back. */
  lemma {:induction false} SplitJoin(words: seq<string>, c: char)
    requires |words| >= 1
    requires forall k :: 0 <= k < |words| ==> c !in words[k]
    ensures Split(Join(words, [c]), c) == words
  {
    if |words| == 1 {
      SplitWithout(words[0], c);
    } else {
      SplitJoin(words[1..], c);
      SplitAfter(words[0], Join(words[1..], [c]), c);
      assert [words[0]] + words[1..] == words;
    }
  }
}
