/**
 * Token provisioning: a token is 32 characters chosen from a fixed
 * alphanumeric alphabet, and the command-line argument naming the token's
 * owner is "user" or "user/repo" (the repository part is ignored).
 */
module Tokens {
  import opened Tables
  import Auth

  /** The token alphabet: lower-case letters, upper-case letters, digits. */
  const Alphabet: string := Lower + Upper + Digit

  /** A character of the alphabet, by the three ranges it is made of. */
  predicate IsAlphanumeric(c: char) {
    ('a' <= c <= 'z') || ('A' <= c <= 'Z') || ('0' <= c <= '9')
  }

  /** The position of an alphanumeric character in the alphabet. */
  function IndexOf(c: char): (k: nat)
    requires IsAlphanumeric(c)
    ensures k < |Alphabet|
  {
    if 'a' <= c <= 'z' then c as int - 'a' as int
    else if 'A' <= c <= 'Z' then 26 + (c as int - 'A' as int)
    else 52 + (c as int - '0' as int)
  }

  /** The three ranges the alphabet is made of. */
  const Lower := "abcdefghijklmnopqrstuvwxyz"
  const Upper := "ABCDEFGHIJKLMNOPQRSTUVWXYZ"
  const Digit := "0123456789"

  /** Position i of `range` holds the character i places after `first`. */
  predicate IsRun(range: string, first: char) {
    forall i :: 0 <= i < |range| ==> range[i] as int == first as int + i
  }

  lemma LowerIsRun()
    ensures |Lower| == 26 && IsRun(Lower, 'a')
  {
  }

  lemma UpperIsRun()
    ensures |Upper| == 26 && IsRun(Upper, 'A')
  {
  }

  lemma DigitIsRun()
    ensures |Digit| == 10 && IsRun(Digit, '0')
  {
  }

  /** The alphabet is the three ranges in order: position k holds the k-th alphanumeric character. */
  lemma AlphabetLayout(k: nat)
    requires k < |Alphabet|
    ensures IsAlphanumeric(Alphabet[k]) && IndexOf(Alphabet[k]) == k
  {
    LowerIsRun();
    UpperIsRun();
    DigitIsRun();
    if k < 26 {
      assert Alphabet[k] == Lower[k];
    } else if k < 52 {
      assert Alphabet[k] == Upper[k - 26];
    } else {
      assert Alphabet[k] == Digit[k - 52];
    }
  }

  /** Every alphanumeric character is in the alphabet, at its index. */
  lemma AlphabetComplete(c: char)
    requires IsAlphanumeric(c)
    ensures Alphabet[IndexOf(c)] == c
  {
    var k := IndexOf(c);
    AlphabetLayout(k);
    assert IndexOf(Alphabet[k]) == IndexOf(c);
  }

  /** The alphabet holds exactly the ASCII letters and digits. */
  lemma AlphabetMembers(c: char)
    ensures c in Alphabet <==> IsAlphanumeric(c)
  {
    if c in Alphabet {
      var k :| 0 <= k < |Alphabet| && Alphabet[k] == c;
      AlphabetLayout(k);
    }
    if IsAlphanumeric(c) {
      AlphabetComplete(c);
    }
  }

  /** A string the generator can produce: TokenLength letters and digits. */
  predicate IsToken(t: string) {
    |t| == Auth.TokenLength && forall i :: 0 <= i < |t| ==> IsAlphanumeric(t[i])
  }

  /** A valid sequence of random choices: one alphabet position per token character. */
  predicate IsChoice(picks: seq<nat>) {
    |picks| == Auth.TokenLength && forall i :: 0 <= i < |picks| ==> picks[i] < |Alphabet|
  }

  /** The token made from the random choices `picks`. */
  function GenerateToken(picks: seq<nat>): (t: string)
    requires IsChoice(picks)
    ensures IsToken(t)
  {
    ChosenAreAlphanumeric(picks);
    seq(Auth.TokenLength, i requires 0 <= i < Auth.TokenLength => Alphabet[picks[i]])
  }

  lemma ChosenAreAlphanumeric(picks: seq<nat>)
    requires IsChoice(picks)
    ensures forall i :: 0 <= i < |picks| ==> IsAlphanumeric(Alphabet[picks[i]])
  {
    forall i | 0 <= i < |picks| ensures IsAlphanumeric(Alphabet[picks[i]]) {
      AlphabetLayout(picks[i]);
    }
  }

  /** Character i of a generated token is the alphanumeric character at position picks[i]. */
  lemma GeneratedAt(picks: seq<nat>, i: nat)
    requires IsChoice(picks) && i < Auth.TokenLength
    ensures IsAlphanumeric(GenerateToken(picks)[i]) && IndexOf(GenerateToken(picks)[i]) == picks[i]
  {
    AlphabetLayout(picks[i]);
  }

  /** The choices that produce a given token. */
  function Choices(t: string): (picks: seq<nat>)
    requires IsToken(t)
    ensures IsChoice(picks)
  {
    seq(|t|, i requires 0 <= i < |t| => IndexOf(t[i]))
  }

  /** Different choices give different tokens, and every token is generated by its own choices. */
  lemma GenerateTokenRoundTrip(picks: seq<nat>, t: string)
    requires IsChoice(picks) && IsToken(t)
    ensures Choices(GenerateToken(picks)) == picks
    ensures GenerateToken(Choices(t)) == t
  {
    forall i | 0 <= i < |picks| ensures Choices(GenerateToken(picks))[i] == picks[i] {
      GeneratedAt(picks, i);
    }
    var c := Choices(t);
    forall i | 0 <= i < |t| ensures GenerateToken(c)[i] == t[i] {
      AlphabetComplete(t[i]);
    }
  }

  /** A generated token, presented as a bearer token, passes the header format check. */
  lemma GeneratedTokenIsWellFormed(picks: seq<nat>)
    requires IsChoice(picks)
    ensures Auth.IsWellFormed(Auth.AuthPrefix + GenerateToken(picks))
  {
    var auth := Auth.AuthPrefix + GenerateToken(picks);
    assert auth[..|Auth.AuthPrefix|] == Auth.AuthPrefix;
    assert Auth.TokenPart(auth) == GenerateToken(picks);
  }

  /** The separator of the owner argument. */
  const Slash := '/'

  /** The number of occurrences of `c` in `s`. */
  function Count(s: string, c: char): nat {
    if s == [] then 0 else (if s[0] == c then 1 else 0) + Count(s[1..], c)
  }

  lemma {:induction false} CountZero(s: string, c: char)
    ensures Count(s, c) == 0 <==> c !in s
  {
    if s != [] {
      CountZero(s[1..], c);
      assert s == [s[0]] + s[1..];
    }
  }

  lemma {:induction false} CountAppend(s: string, t: string, c: char)
    ensures Count(s + t, c) == Count(s, c) + Count(t, c)
  {
    if s == [] {
      assert s + t == t;
    } else {
      assert (s + t)[0] == s[0];
      assert (s + t)[1..] == s[1..] + t;
      CountAppend(s[1..], t, c);
    }
  }

  /** `s` split at every occurrence of `sep`, as Python's str.split(sep) does. */
  function Split(s: string, sep: char): (parts: seq<string>)
    ensures |parts| == Count(s, sep) + 1
    ensures forall i :: 0 <= i < |parts| ==> sep !in parts[i]
  {
    if s == [] then [""]
    else
      var rest := Split(s[1..], sep);
      if s[0] == sep then [""] + rest
      else [[s[0]] + rest[0]] + rest[1..]
  }

  /** The parts joined back with `sep` between them. */
  function Join(parts: seq<string>, sep: char): string
    requires |parts| >= 1
  {
    if |parts| == 1 then parts[0] else parts[0] + [sep] + Join(parts[1..], sep)
  }

  /** Joining the parts of a split gives back the string. */
  lemma {:induction false} SplitJoin(s: string, sep: char)
    ensures Join(Split(s, sep), sep) == s
  {
    if s != [] {
      var rest := Split(s[1..], sep);
      SplitJoin(s[1..], sep);
      if s[0] != sep {
        var parts := Split(s, sep);
        assert parts[1..] == rest[1..];
        if |rest| > 1 {
          assert Join(parts, sep) == [s[0]] + Join(rest, sep);
        }
      }
    }
  }

  /** Splitting at a first separator preceded by `a` gives `a`, then the split of what follows. */
  lemma {:induction false} SplitAtFirst(a: string, b: string, sep: char)
    requires sep !in a
    ensures Split(a + [sep] + b, sep) == [a] + Split(b, sep)
  {
    if a == [] {
      assert a + [sep] + b == [sep] + b;
      assert ([sep] + b)[1..] == b;
    } else {
      SplitAtFirst(a[1..], b, sep);
      assert (a + [sep] + b)[1..] == a[1..] + [sep] + b;
      assert [a[0]] + a[1..] == a;
    }
  }

  /**
   * The owner argument of the token command: an argument without a slash
   * stands for every repository of that user ('*'); an argument with one
   * slash splits into user and repository; one with more slashes does not
   * unpack into two parts and fails.
   */
  function ParseUserRepo(arg: string): (r: Option<(string, string)>)
    ensures Slash !in arg ==> r == Some((arg, "*"))
    ensures Count(arg, Slash) == 1 ==>
      r.Some? && r.value.0 + [Slash] + r.value.1 == arg && Slash !in r.value.0 && Slash !in r.value.1
    ensures Count(arg, Slash) > 1 ==> r.None?
  {
    var userRepo := if Slash !in arg then arg + [Slash, '*'] else arg;
    CountZero(arg, Slash);
    CountAppend(arg, [Slash, '*'], Slash);
    assert Count([Slash, '*'], Slash) == 1 by {
      assert [Slash, '*'][1..] == ['*'];
      assert ['*'][1..] == [];
    }
    var parts := Split(userRepo, Slash);
    SplitJoin(userRepo, Slash);
    if |parts| == 2 then
      assert userRepo == parts[0] + [Slash] + parts[1];
      assert Slash !in arg ==> parts[0] == arg && parts[1] == "*" by {
        if Slash !in arg {
          assert userRepo == arg + [Slash] + "*";
          SplitAtFirst(arg, "*", Slash);
          assert Split("*", Slash) == ["*"] by {
            assert "*"[1..] == [] && "*"[0] == '*';
            assert Split([], Slash) == [""];
            assert ['*'] + "" == "*";
          }
        }
      }
      Some((parts[0], parts[1]))
    else None
  }

  /** The command warns that the repository part is ignored unless it is empty or "*". */
  predicate WarnsRepoIgnored(repo: string)
    ensures !WarnsRepoIgnored(repo) <==> repo in {"", "*"}
  {
    repo != "" && repo != "*"
  }
}
