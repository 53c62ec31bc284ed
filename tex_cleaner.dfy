/**
 * The cleaning `read_tex_file` applies to a résumé written in TeX, once the
 * file has been read: two regular-expression substitutions and a strip.
 *
 * Pass 1, `re.sub(r'\\[a-zA-Z]+{([^}]*)}', r'\1', content)`, replaces every
 * braced command `\name{arg}` by `arg`. Pass 2, `re.sub(r'\\[a-zA-Z]+', ' ',
 * content)`, replaces every remaining bare command `\name` by one space.
 * Python's `re.sub` scans left to right, replaces the leftmost match, resumes
 * after it and copies unmatched characters one at a time; neither pattern can
 * match the empty string. Each pass is modelled as such a scanner.
 */
module TexCleaner {
  import opened Wrappers
  import opened Strings

  /** A command name as `[a-zA-Z]+` matches it. */
  predicate IsCommandName(name: string) {
    |name| > 0 && forall i :: 0 <= i < |name| ==> IsAsciiLetter(name[i])
  }

  /** A command name holds no `\\`, `{` or `}`. */
  lemma NonLetterNotInName(name: string, c: char)
    requires IsCommandName(name) && !IsAsciiLetter(c)
    ensures c !in name
  {
  }

  /** The text of the braced command `\name{arg}`. */
  function BracedCommand(name: string, arg: string): string {
    ['\\'] + name + ['{'] + arg + ['}']
  }

  /**
   * `s` starts with a match of the first pattern whose command name is `name`
   * and whose captured group is `arg`.
   */
  predicate BracedCommandAt(s: string, name: string, arg: string) {
    IsCommandName(name) && '}' !in arg && BracedCommand(name, arg) <= s
  }

  /** No `\` immediately followed by an ASCII letter: nothing pass 2 would match. */
  predicate CommandFree(s: string) {
    forall i :: 0 < i < |s| && s[i - 1] == '\\' ==> !IsAsciiLetter(s[i])
  }

  /** Length of the maximal run of ASCII letters at the front of `s`. */
  function LetterRun(s: string): (n: nat)
    ensures n <= |s|
    ensures forall i :: 0 <= i < n ==> IsAsciiLetter(s[i])
    ensures n < |s| ==> !IsAsciiLetter(s[n])
    decreases |s|
  {
    if |s| > 0 && IsAsciiLetter(s[0]) then 1 + LetterRun(s[1..]) else 0
  }

  /** Index of the first `}` in `s`, if any. */
  function FirstClose(s: string): (k: Option<nat>)
    ensures k.Some? ==> k.value < |s| && s[k.value] == '}' && '}' !in s[..k.value]
    ensures k.None? ==> '}' !in s
    decreases |s|
  {
    if s == [] then None
    else if s[0] == '}' then Some(0)
    else match FirstClose(s[1..])
      case None => None
      case Some(k) => Some(k + 1)
  }

  /** A match of the first pattern: the command name's length and the group. */
  datatype Braced = Braced(nameLength: nat, arg: string) {
    /** How many characters of the input the match consumes. */
    function Length(): nat { nameLength + |arg| + 3 }
  }

  /**
   * Tries the first pattern at the start of `s`. The letter run must be
   * maximal, since `{` is not a letter, and the group runs to the first `}`,
   * since `[^}]*` cannot cross one; so this is the only match there can be.
   */
  function MatchBraced(s: string): (m: Option<Braced>)
    ensures m.Some? ==> m.value.Length() <= |s|
    ensures m.Some? ==> BracedCommandAt(s, s[1..1 + m.value.nameLength], m.value.arg)
  {
    if |s| < 2 || s[0] != '\\' then None
    else
      var n := LetterRun(s[1..]);
      if n == 0 || 1 + n >= |s| || s[1 + n] != '{' then None
      else match FirstClose(s[2 + n..])
        case None => None
        case Some(k) =>
          assert s[..n + k + 3] == BracedCommand(s[1..1 + n], s[2 + n..2 + n + k]);
          Some(Braced(n, s[2 + n..2 + n + k]))
  }

  /** The letter run of a command name followed by a non-letter is exactly the name. */
  lemma LetterRunOfName(name: string, rest: string)
    requires IsCommandName(name)
    requires rest == [] || !IsAsciiLetter(rest[0])
    ensures LetterRun(name + rest) == |name|
  {
    var s := name + rest;
    assert forall i :: 0 <= i < |name| ==> s[i] == name[i];
    assert |rest| > 0 ==> s[|name|] == rest[0];
  }

  /** The first `}` after a group without `}` is the one that closes it. */
  lemma FirstCloseAfterGroup(arg: string, rest: string)
    requires '}' !in arg
    ensures FirstClose(arg + ['}'] + rest) == Some(|arg|)
  {
    var s := arg + ['}'] + rest;
    assert s[..|arg|] == arg;
    assert s[|arg|] == '}';
  }

  /** Whenever the first pattern matches at the start of `s`, the scanner finds that very match. */
  lemma MatchBracedComplete(s: string, name: string, arg: string)
    requires BracedCommandAt(s, name, arg)
    ensures MatchBraced(s) == Some(Braced(|name|, arg))
  {
    var n := |name|;
    var b := BracedCommand(name, arg);
    assert s[..|b|] == b;
    assert s[1..] == name + s[1 + n..] by {
      assert s[1..1 + n] == name;
    }
    assert s[1 + n] == '{';
    LetterRunOfName(name, s[1 + n..]);
    assert s[2 + n..] == arg + ['}'] + s[|b|..] by {
      assert s[2 + n..|b|] == arg + ['}'];
    }
    FirstCloseAfterGroup(arg, s[|b|..]);
    assert s[0] == '\\' && LetterRun(s[1..]) == n;
    assert FirstClose(s[2 + n..]) == Some(|arg|);
    assert s[2 + n..2 + n + |arg|] == arg;
  }

  /** The first pattern matches at most one way at any position. */
  lemma BracedCommandUnique(s: string, name1: string, arg1: string, name2: string, arg2: string)
    requires BracedCommandAt(s, name1, arg1) && BracedCommandAt(s, name2, arg2)
    ensures name1 == name2 && arg1 == arg2
  {
    MatchBracedComplete(s, name1, arg1);
    MatchBracedComplete(s, name2, arg2);
    assert name1 == s[1..1 + |name1|];
    assert name2 == s[1..1 + |name2|];
  }

  // ---------------------------------------------------------------------
  // Pass 1: braced commands.

  /** `re.sub(r'\\[a-zA-Z]+{([^}]*)}', r'\1', s)`. */
  function StripBracedCommands(s: string): (r: string)
    ensures |r| <= |s|
    decreases |s|
  {
    if s == [] then []
    else match MatchBraced(s)
      case Some(m) => m.arg + StripBracedCommands(s[m.Length()..])
      case None => [s[0]] + StripBracedCommands(s[1..])
  }

  /** A braced command is replaced by exactly its brace contents and the scan resumes after its `}`. */
  lemma BracedCommandReplaced(name: string, arg: string, rest: string)
    requires IsCommandName(name) && '}' !in arg
    ensures StripBracedCommands(BracedCommand(name, arg) + rest) == arg + StripBracedCommands(rest)
  {
    var s := BracedCommand(name, arg) + rest;
    MatchBracedComplete(s, name, arg);
    assert s[|name| + |arg| + 3..] == rest;
  }

  /** Where no braced command starts, the character is copied unchanged. */
  lemma BracedNoMatchCopied(s: string)
    requires |s| > 0
    requires forall name, arg :: !BracedCommandAt(s, name, arg)
    ensures StripBracedCommands(s) == [s[0]] + StripBracedCommands(s[1..])
  {
  }

  /** Text without a backslash in front of the first match is copied unchanged. */
  lemma {:induction false} BracedPlainPrefixCopied(u: string, v: string)
    requires '\\' !in u
    ensures StripBracedCommands(u + v) == u + StripBracedCommands(v)
    decreases |u|
  {
    if u != [] {
      var s := u + v;
      assert u == [u[0]] + u[1..];
      assert s[0] == u[0] != '\\';
      assert s[1..] == u[1..] + v;
      BracedPlainPrefixCopied(u[1..], v);
      assert StripBracedCommands(s) == [u[0]] + StripBracedCommands(s[1..]);
      assert [u[0]] + (u[1..] + StripBracedCommands(v)) == u + StripBracedCommands(v);
    } else {
      assert u + v == v;
    }
  }

  // ---------------------------------------------------------------------
  // Pass 2: bare commands.

  /** `re.sub(r'\\[a-zA-Z]+', ' ', s)`. */
  function ReplaceBareCommands(s: string): (r: string)
    ensures |r| <= |s|
    ensures |s| > 0 ==> |r| > 0 && (IsAsciiLetter(r[0]) <==> IsAsciiLetter(s[0]))
    decreases |s|
  {
    if s == [] then []
    else if s[0] == '\\' && |s| > 1 && IsAsciiLetter(s[1]) then
      var n := LetterRun(s[1..]);
      [' '] + ReplaceBareCommands(s[1 + n..])
    else [s[0]] + ReplaceBareCommands(s[1..])
  }

  /** No residue: after pass 2 no backslash is followed by an ASCII letter. */
  lemma {:induction false} ReplaceBareCommandsCommandFree(s: string)
    ensures CommandFree(ReplaceBareCommands(s))
    decreases |s|
  {
    var r := ReplaceBareCommands(s);
    if s == [] {
    } else if s[0] == '\\' && |s| > 1 && IsAsciiLetter(s[1]) {
      var n := LetterRun(s[1..]);
      var tail := ReplaceBareCommands(s[1 + n..]);
      ReplaceBareCommandsCommandFree(s[1 + n..]);
      assert r == [' '] + tail;
      forall k | 0 < k < |r| && r[k - 1] == '\\'
        ensures !IsAsciiLetter(r[k])
      {
        assert r[k - 1] == tail[k - 2] && r[k] == tail[k - 1];
      }
    } else {
      var tail := ReplaceBareCommands(s[1..]);
      ReplaceBareCommandsCommandFree(s[1..]);
      assert r == [s[0]] + tail;
      forall k | 0 < k < |r| && r[k - 1] == '\\'
        ensures !IsAsciiLetter(r[k])
      {
        if k > 1 {
          assert r[k - 1] == tail[k - 2] && r[k] == tail[k - 1];
        }
      }
    }
  }

  /** A bare command is replaced by exactly one space; the scan resumes after its last letter. */
  lemma BareCommandReplaced(name: string, rest: string)
    requires IsCommandName(name)
    requires rest == [] || !IsAsciiLetter(rest[0])
    ensures ReplaceBareCommands(['\\'] + name + rest) == [' '] + ReplaceBareCommands(rest)
  {
    var s := ['\\'] + name + rest;
    assert s[1..] == name + rest;
    LetterRunOfName(name, rest);
    assert s[1 + |name|..] == rest;
  }

  /** A backslash not followed by an ASCII letter is left in place. */
  lemma LoneBackslashKept(rest: string)
    requires rest == [] || !IsAsciiLetter(rest[0])
    ensures ReplaceBareCommands(['\\'] + rest) == ['\\'] + ReplaceBareCommands(rest)
  {
    assert (['\\'] + rest)[1..] == rest;
  }

  /** Text without a backslash is copied unchanged by pass 2. */
  lemma {:induction false} BarePlainPrefixCopied(u: string, v: string)
    requires '\\' !in u
    ensures ReplaceBareCommands(u + v) == u + ReplaceBareCommands(v)
    decreases |u|
  {
    if u != [] {
      var s := u + v;
      assert s[0] == u[0];
      assert s[1..] == u[1..] + v;
      assert u == [u[0]] + u[1..];
      BarePlainPrefixCopied(u[1..], v);
      assert ReplaceBareCommands(s) == [u[0]] + ReplaceBareCommands(s[1..]);
      assert [u[0]] + (u[1..] + ReplaceBareCommands(v)) == u + ReplaceBareCommands(v);
    } else {
      assert u + v == v;
    }
  }

  // ---------------------------------------------------------------------
  // The whole cleaning.

  /** What `read_tex_file` returns for a file whose content is `content`. */
  function CleanTex(content: string): (r: string)
    ensures CommandFree(r)
    ensures Trimmed(r)
    ensures |r| <= |content|
  {
    var replaced := ReplaceBareCommands(StripBracedCommands(content));
    var r := Strip(replaced);
    ReplaceBareCommandsCommandFree(StripBracedCommands(content));
    CommandFreeSlice(replaced, LeadingSpace(replaced), LeadingSpace(replaced) + |r|);
    r
  }

  /** Cutting a slice out of a command-free string cannot create a command. */
  lemma CommandFreeSlice(s: string, i: int, j: int)
    requires 0 <= i <= j <= |s| && CommandFree(s)
    ensures CommandFree(s[i..j])
  {
    var t := s[i..j];
    forall k | 0 < k < |t| && t[k - 1] == '\\'
      ensures !IsAsciiLetter(t[k])
    {
      assert t[k - 1] == s[i + k - 1] && t[k] == s[i + k];
    }
  }

  /** Text without any backslash is only stripped. */
  lemma CleanPlainText(content: string)
    requires '\\' !in content
    ensures CleanTex(content) == Strip(content)
  {
    assert content + [] == content;
    BracedPlainPrefixCopied(content, []);
    BarePlainPrefixCopied(content, []);
  }

  /** A braced command on its own is replaced by its brace contents. */
  lemma BracedCommandAlone(name: string, arg: string)
    requires IsCommandName(name) && '}' !in arg
    ensures StripBracedCommands(BracedCommand(name, arg)) == arg
  {
    assert BracedCommand(name, arg) + [] == BracedCommand(name, arg);
    BracedCommandReplaced(name, arg, []);
  }

  /** Two braced commands separated by plain text: pass 1 keeps the brace contents and the text between them. */
  lemma StripTwoBracedCommands(name1: string, arg1: string, gap: string, name2: string, arg2: string)
    requires IsCommandName(name1) && IsCommandName(name2)
    requires '}' !in arg1 && '}' !in arg2
    requires '\\' !in gap
    ensures StripBracedCommands(BracedCommand(name1, arg1) + gap + BracedCommand(name2, arg2)) == arg1 + gap + arg2
  {
    var second := BracedCommand(name2, arg2);
    var rest := gap + second;
    BracedCommandAlone(name2, arg2);
    BracedPlainPrefixCopied(gap, second);
    assert BracedCommand(name1, arg1) + gap + second == BracedCommand(name1, arg1) + rest;
    BracedCommandReplaced(name1, arg1, rest);
  }

  /** When no backslash survives pass 1, the cleaning of two braced commands is the strip of what they keep. */
  lemma CleanTwoBracedCommands(name1: string, arg1: string, gap: string, name2: string, arg2: string)
    requires IsCommandName(name1) && IsCommandName(name2)
    requires '}' !in arg1 && '}' !in arg2
    requires '\\' !in arg1 + gap + arg2
    ensures CleanTex(BracedCommand(name1, arg1) + gap + BracedCommand(name2, arg2)) == Strip(arg1 + gap + arg2)
  {
    var k := arg1 + gap + arg2;
    assert ReplaceBareCommands(StripBracedCommands(BracedCommand(name1, arg1) + gap + BracedCommand(name2, arg2))) == k by {
      StripTwoBracedCommands(name1, arg1, gap, name2, arg2);
      assert k + [] == k;
      BarePlainPrefixCopied(k, []);
    }
  }

  /** Where no `}` occurs at all, the first pattern never matches and pass 1 changes nothing. */
  lemma {:induction false} BracedNoCloseUnchanged(s: string)
    requires '}' !in s
    ensures StripBracedCommands(s) == s
    decreases |s|
  {
    if s != [] {
      assert MatchBraced(s) == None;
      assert s == [s[0]] + s[1..];
      BracedNoCloseUnchanged(s[1..]);
    }
  }

  /**
   * A command whose brace is never closed: pass 1 finds no match and keeps it,
   * then pass 2 turns the command name into one space and leaves the `{` and
   * what follows.
   */
  lemma UnclosedBraceCommand(name: string, tail: string)
    requires IsCommandName(name) && '}' !in tail && '\\' !in tail
    ensures ReplaceBareCommands(StripBracedCommands(['\\'] + name + ['{'] + tail)) == [' ', '{'] + tail
  {
    UnclosedBraceKeptByPassOne(name, tail);
    UnclosedBraceCommandSpaced(name, tail);
  }

  /** Pass 1 leaves an unclosed braced command as it is. */
  lemma UnclosedBraceKeptByPassOne(name: string, tail: string)
    requires IsCommandName(name) && '}' !in tail
    ensures StripBracedCommands(['\\'] + name + ['{'] + tail) == ['\\'] + name + ['{'] + tail
  {
    NonLetterNotInName(name, '}');
    BracedNoCloseUnchanged(['\\'] + name + ['{'] + tail);
  }

  /** Pass 2 turns the name of an unclosed braced command into one space. */
  lemma UnclosedBraceCommandSpaced(name: string, tail: string)
    requires IsCommandName(name) && '\\' !in tail
    ensures ReplaceBareCommands(['\\'] + name + ['{'] + tail) == [' ', '{'] + tail
  {
    var brace := ['{'] + tail;
    assert ['\\'] + name + ['{'] + tail == ['\\'] + name + brace;
    BareCommandReplaced(name, brace);
    assert brace + [] == brace;
    BarePlainPrefixCopied(brace, []);
    assert [' '] + brace == [' ', '{'] + tail;
  }
}
