/** `Compiler#escape_interpolation`: the rewrite `gsub!(/(.?)\#\{(.*?)\}/)` that
    wraps every interpolated expression in a call of `Slim::Helpers.escape_html`,
    except where the match begins with a backslash, followed by quoting the
    result as one double-quoted Ruby literal.

    The regular expression is modelled as Ruby evaluates it: `.` matches any
    character but a newline, `(.?)` is greedy (it takes the character before
    `#{` when it can), `(.*?)` is lazy (the expression ends at the first `}`),
    and `gsub` takes the leftmost match and resumes scanning after its end. */
module Interpolation {
  import opened Wrappers

  /** `s.include?("#{")` */
  predicate HasMarker(s: string) {
    exists i :: 0 <= i < |s| - 1 && s[i] == '#' && s[i + 1] == '{'
  }

  /** Where the lazy `(.*?)\}` starting at index `i` of `s` stops: the first `}`
      at or after `i`, unless a newline (which `.` does not match) comes first. */
  function CloseFrom(s: string, i: nat): (r: Option<nat>)
    decreases |s| - i
    ensures r.Some? ==> i <= r.value < |s|
  {
    if i >= |s| then None
    else if s[i] == '}' then Some(i)
    else if s[i] == '\n' then None
    else CloseFrom(s, i + 1)
  }

  /** The scan stops at the first `}` after `i` when no newline comes before
      it, and finds nothing when every `}` after `i` has a newline before it. */
  lemma {:induction false} CloseFromMeaning(s: string, i: nat)
    ensures CloseFrom(s, i).Some? ==>
      var j := CloseFrom(s, i).value;
      s[j] == '}' && forall k :: i <= k < j ==> s[k] != '}' && s[k] != '\n'
    ensures CloseFrom(s, i).None? ==> forall j :: i <= j < |s| && s[j] == '}' ==> '\n' in s[i..j]
    decreases |s| - i
  {
    if i < |s| && s[i] != '}' && s[i] != '\n' {
      CloseFromMeaning(s, i + 1);
      if CloseFrom(s, i).None? {
        forall j | i <= j < |s| && s[j] == '}'
          ensures '\n' in s[i..j]
        {
          assert '\n' in s[i + 1..j];
          assert s[i + 1..j] == s[i..j][1..];
        }
      }
    } else if i < |s| && s[i] == '\n' {
      forall j | i <= j < |s| && s[j] == '}'
        ensures '\n' in s[i..j]
      {
        assert s[i..j][0] == '\n';
      }
    }
  }

  /** One match of the regular expression: the text captured by `(.?)`, the
      expression captured by `(.*?)`, and the index just past the closing `}`. */
  datatype Match = Match(pre: string, code: string, end: nat)

  /** `$&`, the whole matched text. */
  function Matched(m: Match): string {
    m.pre + "#{" + m.code + "}"
  }

  /** The regular expression tried at the very start of `s`: first with `(.?)`
      taking one character, then with `(.?)` empty. */
  function MatchHere(s: string): (m: Option<Match>)
    ensures m.Some? ==> 0 < m.value.end <= |s|
  {
    if 2 < |s| && s[0] != '\n' && s[1] == '#' && s[2] == '{' && CloseFrom(s, 3).Some? then
      var j := CloseFrom(s, 3).value;
      Some(Match([s[0]], s[3..j], j + 1))
    else if 1 < |s| && s[0] == '#' && s[1] == '{' && CloseFrom(s, 2).Some? then
      var j := CloseFrom(s, 2).value;
      Some(Match([], s[2..j], j + 1))
    else
      None
  }

  /** A match spans exactly its text: `$1` (at most one character, never a
      newline), `#{`, an expression free of `}` and newlines, and `}`. */
  lemma MatchHereMeaning(s: string)
    ensures MatchHere(s).Some? ==>
      var m := MatchHere(s).value;
      s[..m.end] == Matched(m) && |m.pre| <= 1 && '\n' !in m.pre
      && '}' !in m.code && '\n' !in m.code
  {
    if MatchHere(s).Some? {
      var m := MatchHere(s).value;
      var i := if |m.pre| == 1 then 3 else 2;
      assert CloseFrom(s, i).Some? && CloseFrom(s, i).value + 1 == m.end;
      CloseFromMeaning(s, i);
      assert m.code == s[i..m.end - 1];
      forall k | 0 <= k < |m.code|
        ensures m.code[k] != '}' && m.code[k] != '\n'
      {
        assert m.code[k] == s[i + k];
      }
      assert s[..m.end] == m.pre + "#{" + m.code + "}";
    }
  }

  /** The interpolation that escapes the value of `code` when it is evaluated. */
  function EscapeCall(code: string): string {
    "#{Slim::Helpers.escape_html(" + code + ")}"
  }

  /** The block given to `gsub!`: a match whose `$1` is a backslash is kept as it
      is, any other becomes `$1` followed by the escaping interpolation. */
  function Replacement(m: Match): string {
    if m.pre == "\\" then Matched(m) else m.pre + EscapeCall(m.code)
  }

  /** One step of `gsub!` at the start of a non-empty `s`: what it emits and
      how many characters it consumes. Where no match starts, the first
      character is copied; otherwise the match is replaced. */
  function Step(s: string): (r: (string, nat))
    requires s != []
    ensures 0 < r.1 <= |s|
  {
    match MatchHere(s)
    case None => ([s[0]], 1)
    case Some(m) => (Replacement(m), m.end)
  }

  /** The string `gsub!` leaves behind. */
  function Rewrite(s: string): string
    decreases |s|
  {
    if s == [] then [] else Step(s).0 + Rewrite(s[Step(s).1..])
  }

  /** `'"%s"' % string` after the rewrite. */
  function EscapedLiteral(s: string): string {
    "\"" + Rewrite(s) + "\""
  }

  /** The scan of `(.*?)\}`: the index of the `}` that closes an expression
      starting at `i`, if there is one. */
  method FindClose(s: string, i: nat) returns (r: Option<nat>)
    ensures r == CloseFrom(s, i)
  {
    var j := i;
    while j < |s| && s[j] != '}' && s[j] != '\n'
      invariant i <= j
      invariant CloseFrom(s, j) == CloseFrom(s, i)
      decreases |s| - j
    {
      j := j + 1;
    }
    if j < |s| && s[j] == '}' {
      r := Some(j);
    } else {
      r := None;
    }
  }

  /** The regular expression tried at index `p` of `s`. */
  method MatchAt(s: string, p: nat) returns (m: Option<Match>)
    requires p <= |s|
    ensures m == MatchHere(s[p..])
  {
    var t := s[p..];
    m := None;
    if 2 < |t| && t[0] != '\n' && t[1] == '#' && t[2] == '{' {
      var close := FindClose(t, 3);
      if close.Some? {
        m := Some(Match([t[0]], t[3..close.value], close.value + 1));
      }
    }
    if m.None? && 1 < |t| && t[0] == '#' && t[1] == '{' {
      var close := FindClose(t, 2);
      if close.Some? {
        m := Some(Match([], t[2..close.value], close.value + 1));
      }
    }
  }

  /** `escape_interpolation(string)` with `use_html_safe` off: a left-to-right
      scan that replaces each leftmost match, then the double quotes. */
  method EscapeInterpolation(s: string) returns (r: string)
    ensures r == EscapedLiteral(s)
    ensures |r| >= 2 && r[0] == '"' && r[|r| - 1] == '"' && r[1..|r| - 1] == Rewrite(s)
  {
    var out := "";
    var p := 0;
    while p < |s|
      invariant p <= |s|
      invariant out + Rewrite(s[p..]) == Rewrite(s)
      decreases |s| - p
    {
      var piece, len := ScanAt(s, p);
      RewriteAt(s, p);
      Shift(out, piece, Rewrite(s[p + len..]), Rewrite(s[p..]), Rewrite(s));
      out, p := out + piece, p + len;
    }
    assert s[p..] == [] && Rewrite([]) == [];
    r := "\"" + out + "\"";
  }

  /** One step of the scan at index `p`: copy the character where no match
      starts, or replace the match that starts there. */
  method ScanAt(s: string, p: nat) returns (piece: string, len: nat)
    requires p < |s|
    ensures (piece, len) == Step(s[p..])
  {
    var m := MatchAt(s, p);
    if m.None? {
      piece, len := [s[p]], 1;
    } else {
      piece, len := Replacement(m.value), m.value.end;
    }
  }

  lemma Shift(out: string, piece: string, rest: string, t: string, total: string)
    requires out + t == total && t == piece + rest
    ensures (out + piece) + rest == total
  {
  }

  /** The rewrite of the suffix at index `p`: one step, then the rest. */
  lemma RewriteAt(s: string, p: nat)
    requires p < |s|
    ensures p + Step(s[p..]).1 <= |s|
    ensures Rewrite(s[p..]) == Step(s[p..]).0 + Rewrite(s[p + Step(s[p..]).1..])
  {
    var t := s[p..];
    assert t[Step(t).1..] == s[p + Step(t).1..];
  }

  // Properties of the rewrite

  /** A string without `#{` is left as it is. */
  lemma {:induction false} RewriteNoMarker(s: string)
    requires !HasMarker(s)
    ensures Rewrite(s) == s
  {
    if s != [] {
      assert MatchHere(s).None? by {
        assert 2 < |s| ==> !(s[1] == '#' && s[1 + 1] == '{');
        assert 1 < |s| ==> !(s[0] == '#' && s[0 + 1] == '{');
      }
      forall i | 0 <= i < |s[1..]| - 1
        ensures !(s[1..][i] == '#' && s[1..][i + 1] == '{')
      {
        assert s[1..][i] == s[i + 1] && s[1..][i + 1] == s[(i + 1) + 1];
      }
      RewriteNoMarker(s[1..]);
    }
  }

  /** A `#{` that no `}` closes matches nothing: a string without `}` is left
      as it is, and no error arises. */
  lemma {:induction false} RewriteNoClose(s: string)
    requires '}' !in s
    ensures Rewrite(s) == s
    decreases |s|
  {
    if s != [] {
      NoCloseFrom(s, 2);
      NoCloseFrom(s, 3);
      assert MatchHere(s).None?;
      RewriteUnmatched(s);
      assert '}' !in s[1..] by {
        forall k | 0 <= k < |s[1..]|
          ensures s[1..][k] != '}'
        {
          assert s[1..][k] == s[k + 1];
        }
      }
      RewriteNoClose(s[1..]);
      assert [s[0]] + s[1..] == s;
    }
  }

  /** The lazy `(.*?)\}` finds no close in a string without `}`. */
  lemma {:induction false} NoCloseFrom(s: string, i: nat)
    requires '}' !in s
    ensures CloseFrom(s, i).None?
    decreases |s| - i
  {
    if i < |s| {
      assert s[i] != '}';
      NoCloseFrom(s, i + 1);
    }
  }

  /** Characters at which no match starts are copied through unchanged. */
  lemma {:induction false} RewriteSkip(a: string, x: string)
    requires forall k :: 0 <= k < |a| ==> MatchHere((a + x)[k..]).None?
    ensures Rewrite(a + x) == a + Rewrite(x)
  {
    if a != [] {
      var s := a + x;
      SkipFirst(a, x);
      RewriteUnmatched(s);
      RewriteSkip(a[1..], x);
      Assoc([a[0]], a[1..], Rewrite(x));
      assert [a[0]] + a[1..] == a;
    } else {
      assert a + x == x;
    }
  }

  /** The first character of `a` starts no match, and neither does any later one
      once the first is dropped. */
  lemma SkipFirst(a: string, x: string)
    requires a != []
    requires forall k :: 0 <= k < |a| ==> MatchHere((a + x)[k..]).None?
    ensures MatchHere(a + x).None? && (a + x)[1..] == a[1..] + x
    ensures forall k :: 0 <= k < |a[1..]| ==> MatchHere((a[1..] + x)[k..]).None?
  {
    var s := a + x;
    assert s[0..] == s;
    forall k | 0 <= k < |a[1..]|
      ensures MatchHere((a[1..] + x)[k..]).None?
    {
      assert (a[1..] + x)[k..] == s[k + 1..];
    }
  }

  /** Where no match starts, the first character is copied. */
  lemma RewriteUnmatched(s: string)
    requires s != [] && MatchHere(s).None?
    ensures Rewrite(s) == [s[0]] + Rewrite(s[1..])
  {
  }

  /** The lazy expression stops at the `}` right after `e` when `e` holds no
      `}` and no newline. */
  lemma {:induction false} CloseAfter(x: string, i: nat, e: string)
    requires i + |e| < |x| && x[i..i + |e|] == e && x[i + |e|] == '}'
    requires '}' !in e && '\n' !in e
    ensures CloseFrom(x, i) == Some(i + |e|)
    decreases |e|
  {
    if e != [] {
      assert x[i] == e[0];
      assert x[i + 1..i + 1 + |e[1..]|] == e[1..];
      CloseAfter(x, i + 1, e[1..]);
    }
  }

  /** A match at the very start of the string has an empty `$1`, so its
      expression is always escaped. */
  lemma RewriteLeadingSpan(e: string, b: string)
    requires '}' !in e && '\n' !in e
    ensures Rewrite("#{" + e + "}" + b) == EscapeCall(e) + Rewrite(b)
  {
    var y := "#{" + e + "}" + b;
    assert y[2..2 + |e|] == e;
    CloseAfter(y, 2, e);
    assert MatchHere(y) == Some(Match([], e, |e| + 3));
    assert y[|e| + 3..] == b;
  }

  /** A match whose `$1` is the character `c` (not a newline) that follows the
      plain text `a`: the text is copied and the match replaced. */
  lemma RewritePrefixedSpan(a: string, c: char, e: string, b: string)
    requires !HasMarker(a + [c]) && c != '\n'
    requires '}' !in e && '\n' !in e
    ensures Rewrite(a + [c] + "#{" + e + "}" + b)
         == a + Replacement(Match([c], e, |e| + 4)) + Rewrite(b)
  {
    var x := [c] + "#{" + e + "}" + b;
    Regroup(a, [c], "#{", e, "}", b);
    NoMatchInPlainPrefix(a, c, x);
    RewriteSkip(a, x);
    RewriteCharSpan(c, e, b);
  }

  /** A match whose `$1` is the first character `c` (not a newline). */
  lemma RewriteCharSpan(c: char, e: string, b: string)
    requires c != '\n'
    requires '}' !in e && '\n' !in e
    ensures Rewrite([c] + "#{" + e + "}" + b) == Replacement(Match([c], e, |e| + 4)) + Rewrite(b)
  {
    var x := [c] + "#{" + e + "}" + b;
    assert x[3..3 + |e|] == e;
    CloseAfter(x, 3, e);
    assert MatchHere(x) == Some(Match([c], e, |e| + 4));
    assert x[|e| + 4..] == b;
  }

  /** Before `a + [c] + "#{"`, where `a + [c]` holds no `#{`, no match can start. */
  lemma NoMatchInPlainPrefix(a: string, c: char, x: string)
    requires !HasMarker(a + [c])
    requires |x| >= 3 && x[0] == c && x[1] == '#' && x[2] == '{'
    ensures forall k :: 0 <= k < |a| ==> MatchHere((a + x)[k..]).None?
  {
    forall k | 0 <= k < |a|
      ensures MatchHere((a + x)[k..]).None?
    {
      var s := a + x;
      var p := a + [c];
      assert s[k] == p[k] && s[k + 1] == p[k + 1];
      assert !(p[k] == '#' && p[k + 1] == '{');
      if k + 2 < |p| {
        assert s[k + 2] == p[k + 2];
        assert !(p[k + 1] == '#' && p[(k + 1) + 1] == '{');
      } else {
        assert s[k + 2] == '#';
      }
    }
  }

  /** An interpolation after plain text whose preceding character is not a
      backslash is replaced by that character and the escaping interpolation;
      everything before it is unchanged and the rest is rewritten on its own. */
  lemma RewriteSpan(a: string, c: char, e: string, b: string)
    requires !HasMarker(a + [c]) && c != '\\'
    requires '}' !in e && '\n' !in e
    ensures Rewrite(a + [c] + "#{" + e + "}" + b) == a + [c] + EscapeCall(e) + Rewrite(b)
  {
    if c == '\n' {
      RewriteNewlineSpan(a, e, b);
    } else {
      RewritePrefixedSpan(a, c, e, b);
      assert [c] != "\\";
      assert Replacement(Match([c], e, |e| + 4)) == [c] + EscapeCall(e);
      Assoc(a, [c], EscapeCall(e));
    }
  }

  /** `.` does not match a newline, so after a newline the match starts at the
      `#` with an empty `$1`; the result is the same as for any other character. */
  lemma RewriteNewlineSpan(a: string, e: string, b: string)
    requires !HasMarker(a + ['\n'])
    requires '}' !in e && '\n' !in e
    ensures Rewrite(a + ['\n'] + "#{" + e + "}" + b) == a + ['\n'] + EscapeCall(e) + Rewrite(b)
  {
    var x := ['\n'] + "#{" + e + "}" + b;
    Regroup(a, ['\n'], "#{", e, "}", b);
    NoMatchInPlainPrefix(a, '\n', x);
    RewriteSkip(a, x);
    RewriteNewlineLead(e, b);
    Assoc(['\n'], EscapeCall(e), Rewrite(b));
    Assoc(a, ['\n'] + EscapeCall(e), Rewrite(b));
    Assoc(a, ['\n'], EscapeCall(e));
  }

  /** A newline is not taken as `$1`: it is copied, and the match starts after it. */
  lemma RewriteNewlineLead(e: string, b: string)
    requires '}' !in e && '\n' !in e
    ensures Rewrite(['\n'] + "#{" + e + "}" + b) == ['\n'] + (EscapeCall(e) + Rewrite(b))
  {
    var y := "#{" + e + "}" + b;
    assert ['\n'] + "#{" + e + "}" + b == ['\n'] + y;
    RewriteNewlineFirst(y);
    RewriteLeadingSpan(e, b);
  }

  /** No match starts at a newline. */
  lemma RewriteNewlineFirst(y: string)
    ensures Rewrite(['\n'] + y) == ['\n'] + Rewrite(y)
  {
    var x := ['\n'] + y;
    assert MatchHere(x).None?;
    RewriteUnmatched(x);
    assert x[1..] == y;
  }

  /** An interpolation preceded by a backslash is kept verbatim. */
  lemma RewriteEscapedSpan(a: string, e: string, b: string)
    requires !HasMarker(a)
    requires '}' !in e && '\n' !in e
    ensures Rewrite(a + "\\#{" + e + "}" + b) == a + "\\#{" + e + "}" + Rewrite(b)
  {
    var p := a + ['\\'];
    forall i | 0 <= i < |p| - 1
      ensures !(p[i] == '#' && p[i + 1] == '{')
    {
      assert p[i] == a[i];
      if i + 1 < |a| {
        assert p[i + 1] == a[i + 1];
      }
    }
    assert "\\#{" == ['\\'] + "#{";
    Assoc(a, ['\\'], "#{");
    RewritePrefixedSpan(a, '\\', e, b);
    assert Replacement(Match("\\", e, |e| + 4)) == "\\#{" + e + "}";
    Assoc(a, "\\#{", e);
    Assoc(a, "\\#{" + e, "}");
  }

  lemma Assoc(x: string, y: string, z: string)
    ensures x + (y + z) == x + y + z
  {
  }

  lemma Regroup(a: string, p1: string, p2: string, p3: string, p4: string, p5: string)
    ensures a + p1 + p2 + p3 + p4 + p5 == a + (p1 + p2 + p3 + p4 + p5)
  {
  }

  /** A string without `#{` comes back from `escape_interpolation` merely quoted. */
  lemma EscapedLiteralNoMarker(s: string)
    requires !HasMarker(s)
    ensures EscapedLiteral(s) == "\"" + s + "\""
  {
    RewriteNoMarker(s);
  }
}
