/** The part of the operator page's hash-change callback that turns
    `window.location.hash` into a class name and a sub-class name. The source
    runs the regular expression `^#([^-]*?)(?:-(.*?))?$` and then splits the
    second group on `_`, title-cases each word and joins the words with spaces.
    Here the regular expression is an explicit split at the first `-`, proved
    equal to a declarative description of what the expression matches. */
module HashParser {
  import opened Optional
  import Words

  /** The capture groups of a successful match: group 1, and group 2 when the
      optional `-` part took part in the match (`undefined` otherwise). */
  datatype ClassMatch = ClassMatch(group1: string, group2: Option<string>)

  /** What the callback derives from the hash: `opClass` and `opSubclass`. */
  datatype HashParts = HashParts(opClass: string, opSubclass: string)

  /** The characters `.` does not match in a JavaScript regular expression
      without the `s` flag. */
  predicate IsLineTerminator(c: char)
  {
    c == '\n' || c == '\r' || c == '\U{2028}' || c == '\U{2029}'
  }

  predicate NoLineTerminator(s: string)
  {
    forall i :: 0 <= i < |s| ==> !IsLineTerminator(s[i])
  }

  /** Declarative reading of `^#([^-]*?)(?:-(.*?))?$` (no `m` flag, so `$` is
      the end of the input): `#`, then a `-`-free group 1, then either the end
      or a `-` and a group 2 free of line terminators running to the end. */
  ghost predicate Matches(hash: string, m: ClassMatch)
  {
    && '-' !in m.group1
    && match m.group2
       case None => hash == "#" + m.group1
       case Some(g) => hash == "#" + m.group1 + "-" + g && NoLineTerminator(g)
  }

  /** Index of the first `c` in `s`, or `|s|` when there is none. */
  function FirstIndex(s: string, c: char): (k: nat)
    ensures k <= |s|
    ensures forall i :: 0 <= i < k ==> s[i] != c
    ensures k < |s| ==> s[k] == c
  {
    if s == [] || s[0] == c then 0 else 1 + FirstIndex(s[1..], c)
  }

  /** `RegExp.prototype.exec` of the class regular expression, as a split of the
      text after `#` at its first `-`. */
  function Exec(hash: string): (r: Option<ClassMatch>)
    ensures r.Some? ==> Matches(hash, r.value)
  {
    if |hash| == 0 || hash[0] != '#' then None
    else
      var body := hash[1..];
      var k := FirstIndex(body, '-');
      if k == |body| then
        assert hash == "#" + body;
        Some(ClassMatch(body, None))
      else if NoLineTerminator(body[k + 1..]) then
        assert hash == "#" + body[..k] + "-" + body[k + 1..];
        Some(ClassMatch(body[..k], Some(body[k + 1..])))
      else None
  }

  /** Every match the regular expression admits is the one `Exec` returns, so the
      match is unique and `Exec` fails only when there is no match at all. */
  lemma ExecComplete(hash: string, m: ClassMatch)
    requires Matches(hash, m)
    ensures Exec(hash) == Some(m)
  {
    var body := hash[1..];
    var n := |m.group1|;
    match m.group2
    case None =>
      assert body == m.group1;
    case Some(g) =>
      assert body == m.group1 + "-" + g;
      assert body[n] == '-';
      assert body[..n] == m.group1 && body[n + 1..] == g;
  }

  /** The sub-class text of the hash: split on `_`, each word title-cased, the
      words joined with single spaces. */
  function SubclassWords(g: string, toTitleCase: string -> string): string
  {
    Words.Join(Words.Map(toTitleCase, Words.Split(g, '_')), " ")
  }

  /** The class and sub-class names the callback computes from a non-empty hash;
      `toTitleCase` is the site's own helper, which is taken as a parameter. */
  function ParseHash(hash: string, toTitleCase: string -> string): (r: HashParts)
    ensures '-' !in r.opClass
    ensures r.opClass != "" ==> |r.opClass| < |hash| && hash[0] == '#' && hash[1..|r.opClass| + 1] == r.opClass
    ensures r.opSubclass != "" ==> Exec(hash).Some? && Exec(hash).value.group2.Some?
  {
    match Exec(hash)
    case None => HashParts("", "")
    case Some(m) =>
      var sub := if m.group2.Some? && m.group2.value != "" then SubclassWords(m.group2.value, toTitleCase) else "";
      HashParts(m.group1, sub)
  }

  /** `#<class>-<rest>`: the class part is the text before the first `-` and the
      sub-class part is the title-cased words of the rest, or empty when nothing
      follows the `-`. */
  lemma ParseHashWithSubclass(cls: string, rest: string, toTitleCase: string -> string)
    requires '-' !in cls && NoLineTerminator(rest)
    ensures ParseHash("#" + cls + "-" + rest, toTitleCase)
         == HashParts(cls, if rest == "" then "" else SubclassWords(rest, toTitleCase))
  {
    ExecComplete("#" + cls + "-" + rest, ClassMatch(cls, Some(rest)));
  }

  /** `#<class>` with no `-`: the sub-class part is empty. */
  lemma ParseHashClassOnly(cls: string, toTitleCase: string -> string)
    requires '-' !in cls
    ensures ParseHash("#" + cls, toTitleCase) == HashParts(cls, "")
  {
    ExecComplete("#" + cls, ClassMatch(cls, None));
  }

  /** A hash the regular expression does not match yields two empty parts: one
      that does not start with `#`, or one whose text after the first `-` holds
      a line terminator. */
  lemma ParseHashUnmatched(hash: string, toTitleCase: string -> string)
    requires hash == [] || hash[0] != '#'
      || exists i :: 0 <= i < |hash| && hash[i] == '-' && !NoLineTerminator(hash[i + 1..]) && '-' !in hash[1..i]
    ensures ParseHash(hash, toTitleCase) == HashParts("", "")
  {
  }

  /** Every hash falls under one of the cases above, read off the split of the
      text after `#` at its first `-`. */
  lemma ParseHashCases(hash: string, toTitleCase: string -> string)
    ensures hash == [] || hash[0] != '#' ==> ParseHash(hash, toTitleCase) == HashParts("", "")
    ensures hash != [] && hash[0] == '#' ==>
      var body := hash[1..];
      var k := FirstIndex(body, '-');
      && (k == |body| ==> ParseHash(hash, toTitleCase) == HashParts(body, ""))
      && (k < |body| && NoLineTerminator(body[k + 1..]) ==>
            ParseHash(hash, toTitleCase)
              == HashParts(body[..k], if body[k + 1..] == "" then "" else SubclassWords(body[k + 1..], toTitleCase)))
      && (k < |body| && !NoLineTerminator(body[k + 1..]) ==> ParseHash(hash, toTitleCase) == HashParts("", ""))
  {
    if hash == [] || hash[0] != '#' {
      ParseHashUnmatched(hash, toTitleCase);
    } else {
      var body := hash[1..];
      var k := FirstIndex(body, '-');
      if k == |body| {
        assert hash == "#" + body;
        ParseHashClassOnly(body, toTitleCase);
      } else {
        assert '-' !in body[..k];
        assert hash == "#" + body[..k] + "-" + body[k + 1..];
        if NoLineTerminator(body[k + 1..]) {
          ParseHashWithSubclass(body[..k], body[k + 1..], toTitleCase);
        } else {
          assert hash[k + 1] == '-' && hash[k + 2..] == body[k + 1..] && hash[1..k + 1] == body[..k];
          ParseHashUnmatched(hash, toTitleCase);
        }
      }
    }
  }

  /** If title-casing leaves every `_`-piece as it is, the sub-class part is the
      text after the `-` with every `_` turned into a space. */
  lemma SubclassWordsReplaceUnderscores(g: string, toTitleCase: string -> string)
    requires forall k :: 0 <= k < |Words.Split(g, '_')| ==>
      toTitleCase(Words.Split(g, '_')[k]) == Words.Split(g, '_')[k]
    ensures SubclassWords(g, toTitleCase) == Words.Replace(g, '_', ' ')
  {
    var pieces := Words.Split(g, '_');
    assert Words.Map(toTitleCase, pieces) == pieces;
    Words.JoinSplitIsReplace(g, '_', ' ');
  }

  /** If title-casing puts no space into any `_`-piece of the text after the
      `-`, splitting the sub-class part on spaces gives back the title-cased
      words, one per piece. */
  lemma SubclassWordsRecoverable(g: string, toTitleCase: string -> string)
    requires forall k :: 0 <= k < |Words.Split(g, '_')| ==> ' ' !in toTitleCase(Words.Split(g, '_')[k])
    ensures Words.Split(SubclassWords(g, toTitleCase), ' ') == Words.Map(toTitleCase, Words.Split(g, '_'))
  {
    Words.SplitJoin(Words.Map(toTitleCase, Words.Split(g, '_')), ' ');
  }
}
