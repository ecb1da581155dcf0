/** Words of a command line: how option words are split, and how names compare. */
module CliWords {
  import opened Text

  function ToLower(s: string): string {
    seq(|s|, i requires 0 <= i < |s| => if 'A' <= s[i] <= 'Z' then s[i] + 32 as char else s[i])
  }

  predicate ValidFirstChar(c: char) {
    'a' <= c <= 'z' || 'A' <= c <= 'Z' || c == '_'
  }

  /** Position of the first `=`, or the length. */
  function FindEquals(s: string): nat {
    if s == "" || s[0] == '=' then 0 else 1 + FindEquals(s[1..])
  }

  lemma {:induction false} FindEqualsBound(s: string)
    ensures FindEquals(s) <= |s|
  {
    if s != "" && s[0] != '=' {
      FindEqualsBound(s[1..]);
    }
  }

  /** `split_short`: name and rest. */
  function SplitShort(s: string): Option<(string, string)> {
    if |s| > 1 && s[0] == '-' && ValidFirstChar(s[1]) then Some((s[1..2], s[2..])) else None
  }

  /** `split_long`: name and what follows the first `=`. */
  function SplitLong(s: string): Option<(string, string)> {
    if |s| > 2 && s[0] == '-' && s[1] == '-' && ValidFirstChar(s[2]) then
      FindEqualsBound(s[2..]);
      var loc := 2 + FindEquals(s[2..]);
      if loc < |s| then Some((s[2..loc], s[loc + 1..])) else Some((s[2..], ""))
    else None
  }

  function Unwrap(word: string, long: bool): Option<(string, string)> {
    if long then SplitLong(word) else SplitShort(word)
  }

  // ------------------------------------------------------------ in plain terms

  /** The two letters differ in case at most. */
  ghost predicate SameLetter(c: char, d: char) {
    || c == d
    || ('a' <= c <= 'z' && c as int == d as int + 32)
    || ('A' <= c <= 'Z' && d as int == c as int + 32)
  }

  ghost predicate SameName(a: string, b: string, ignoreCase: bool) {
    a == b || (ignoreCase && |a| == |b| && forall i | 0 <= i < |a| :: SameLetter(a[i], b[i]))
  }

  lemma LowerIff(a: string, b: string)
    ensures ToLower(a) == ToLower(b) <==> SameName(a, b, true)
  {
    if ToLower(a) == ToLower(b) {
      assert |a| == |ToLower(a)| == |b|;
      forall i | 0 <= i < |a| ensures SameLetter(a[i], b[i]) {
        assert ToLower(a)[i] == ToLower(b)[i];
      }
    }
  }

  /** A word that gives a long option a value or none: `--name=more` or `--name`;
      or one that starts with a short option: `-nmore`. */
  ghost predicate OptionForm(word: string, long: bool, name: string, more: string) {
    && name != "" && ('a' <= name[0] <= 'z' || 'A' <= name[0] <= 'Z' || name[0] == '_')
    && if long then
         '=' !in name && (word == "--" + name + "=" + more || (word == "--" + name && more == ""))
       else
         |name| == 1 && word == "-" + name + more
  }

  lemma {:induction false} EqualsAt(s: string, k: nat)
    requires k <= |s| && '=' !in s[..k] && (k < |s| ==> s[k] == '=')
    ensures FindEquals(s) == k
    decreases k
  {
    if k > 0 {
      assert s[0] in s[..k] && s[1..][..k - 1] == s[..k][1..];
      EqualsAt(s[1..], k - 1);
    }
  }

  lemma {:induction false} EqualsIsFirst(s: string)
    ensures FindEquals(s) <= |s| && '=' !in s[..FindEquals(s)]
    ensures FindEquals(s) < |s| ==> s[FindEquals(s)] == '='
  {
    if s != "" && s[0] != '=' {
      EqualsIsFirst(s[1..]);
      var k := FindEquals(s[1..]);
      assert s[..k + 1] == [s[0]] + s[1..][..k];
    }
  }

  /** What option words are split into, exactly. */
  lemma UnwrapIff(word: string, long: bool, name: string, more: string)
    ensures Unwrap(word, long) == Some((name, more)) <==> OptionForm(word, long, name, more)
  {
    if Unwrap(word, long) == Some((name, more)) {
      UnwrapForm(word, long, name, more);
    }
    if OptionForm(word, long, name, more) {
      if long {
        FormUnwraps(word, name, more);
      } else {
        assert word[1..2] == name && word[2..] == more;
      }
    }
  }

  lemma UnwrapForm(word: string, long: bool, name: string, more: string)
    requires Unwrap(word, long) == Some((name, more))
    ensures OptionForm(word, long, name, more)
  {
    if long {
      var s := word[2..];
      EqualsIsFirst(s);
      var k := FindEquals(s);
      assert word == "--" + s;
      if k < |s| {
        assert name == s[..k] && more == s[k + 1..];
        assert s == name + "=" + more;
        assert word == "--" + name + "=" + more;
      } else {
        assert name == s[..k] == s;
      }
    } else {
      assert word == "-" + name + more;
    }
  }

  lemma FormUnwraps(word: string, name: string, more: string)
    requires OptionForm(word, true, name, more)
    ensures SplitLong(word) == Some((name, more))
  {
    var s := word[2..];
    assert s[..|name|] == name;
    if word == "--" + name {
      assert s == name;
    } else {
      assert s == name + "=" + more && s[|name|] == '=' && s[|name| + 1..] == more;
      assert word[2..2 + |name|] == name && word[2 + |name| + 1..] == more;
    }
    EqualsAt(s, |name|);
  }
}
