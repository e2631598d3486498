/**
 * The pieces of Rust's `str` API the listing layer relies on, over `seq<char>`:
 * `split(c)`, `join`, `trim`, `lines` and `splitn(_, char::is_whitespace)`.
 * Whitespace is the ASCII subset of `char::is_whitespace`.
 */
module Strings {
  import opened Wrappers

  predicate IsWs(c: char) {
    c == ' ' || c == '\t' || c == '\n' || c == '\U{0B}' || c == '\U{0C}' || c == '\r'
  }

  predicate NoWs(s: string) {
    forall i :: 0 <= i < |s| ==> !IsWs(s[i])
  }

  /** A line feed is whitespace. */
  lemma NoWsNoLineFeed(s: string)
    requires NoWs(s)
    ensures '\n' !in s
  {
    assert forall i :: 0 <= i < |s| ==> s[i] != '\n';
  }

  /** Text that a printed line carries back unchanged: no line feed, no trailing whitespace. */
  predicate KeepsText(t: string) {
    '\n' !in t && (t == [] || !IsWs(t[|t| - 1]))
  }

  /** A string whose trimmed form is empty. */
  predicate Blank(s: string) {
    forall i :: 0 <= i < |s| ==> IsWs(s[i])
  }

  function TrimStart(s: string): string {
    if s != [] && IsWs(s[0]) then TrimStart(s[1..]) else s
  }

  function TrimEnd(s: string): string {
    if s != [] && IsWs(s[|s| - 1]) then TrimEnd(s[..|s| - 1]) else s
  }

  /** `str::trim`: the string without leading and trailing whitespace. */
  function Trim(s: string): string {
    TrimEnd(TrimStart(s))
  }

  /** `trim_start` removes a whitespace prefix and stops at the first other character. */
  lemma {:induction false} TrimStartShape(s: string)
    ensures |TrimStart(s)| <= |s| && TrimStart(s) == s[|s| - |TrimStart(s)|..]
    ensures TrimStart(s) == [] || !IsWs(TrimStart(s)[0])
    ensures Blank(s[..|s| - |TrimStart(s)|])
  {
    if s != [] && IsWs(s[0]) {
      TrimStartShape(s[1..]);
      var r := TrimStart(s[1..]);
      assert s[1..][..|s| - 1 - |r|] == s[1..|s| - |r|];
      var p := s[..|s| - |r|];
      forall k | 0 <= k < |p| ensures IsWs(p[k]) {
        if k > 0 {
          assert p[k] == s[1..|s| - |r|][k - 1];
        }
      }
    }
  }

  /** `trim_end` removes a whitespace suffix and stops at the last other character. */
  lemma {:induction false} TrimEndShape(s: string)
    ensures |TrimEnd(s)| <= |s| && TrimEnd(s) == s[..|TrimEnd(s)|]
    ensures TrimEnd(s) == [] || !IsWs(TrimEnd(s)[|TrimEnd(s)| - 1])
    ensures Blank(s[|TrimEnd(s)|..])
  {
    if s != [] && IsWs(s[|s| - 1]) {
      TrimEndShape(s[..|s| - 1]);
      var r := TrimEnd(s[..|s| - 1]);
      assert s[..|s| - 1][|r|..] == s[|r|..|s| - 1];
      var p := s[|r|..];
      forall k | 0 <= k < |p| ensures IsWs(p[k]) {
        if k < |p| - 1 {
          assert p[k] == s[|r|..|s| - 1][k];
        }
      }
    }
  }

  /** A trimmed string starts and ends with non-whitespace. */
  lemma TrimEnds(s: string)
    ensures Trim(s) == [] || (!IsWs(Trim(s)[0]) && !IsWs(Trim(s)[|Trim(s)| - 1]))
  {
    var t := TrimStart(s);
    TrimStartShape(s);
    TrimEndShape(t);
    var r := TrimEnd(t);
    if r != [] {
      assert r[0] == t[0];
    }
  }

  /** Trimming finds nothing to remove exactly when both ends are non-whitespace. */
  lemma TrimKeeps(s: string)
    requires s != [] && !IsWs(s[0]) && !IsWs(s[|s| - 1])
    ensures Trim(s) == s
  {
  }

  /** Trimming twice is trimming once. */
  lemma TrimTwice(s: string)
    ensures Trim(Trim(s)) == Trim(s)
  {
    TrimEnds(s);
    if Trim(s) != [] {
      TrimKeeps(Trim(s));
    }
  }

  /** A string trims to nothing exactly when it is all whitespace. */
  lemma TrimEmptyIff(s: string)
    ensures Trim(s) == [] <==> Blank(s)
  {
    var t := TrimStart(s);
    TrimStartShape(s);
    TrimEndShape(t);
    if Trim(s) == [] {
      assert t[0..] == t;
      assert t == [];
      assert s[..|s|] == s;
    } else if Blank(s) {
      BlankTrimStart(s);
    }
  }

  lemma {:induction false} BlankTrimStart(s: string)
    requires Blank(s)
    ensures TrimStart(s) == []
  {
    if s != [] {
      BlankTrimStart(s[1..]);
    }
  }

  /** `str::split(c)`: always at least one part; an empty part between adjacent separators. */
  function Split(s: string, c: char): (r: seq<string>)
    ensures |r| >= 1
    ensures forall i :: 0 <= i < |r| ==> c !in r[i]
  {
    if s == [] then [[]]
    else
      var rest := Split(s[1..], c);
      if s[0] == c then [[]] + rest
      else [[s[0]] + rest[0]] + rest[1..]
  }

  /** `join(sep)` over parts. */
  function Join(parts: seq<string>, c: char): string {
    if |parts| == 0 then []
    else if |parts| == 1 then parts[0]
    else parts[0] + [c] + Join(parts[1..], c)
  }

  /** Splitting after a separator-free prefix puts that prefix in front of the first part. */
  lemma {:induction false} SplitAfter(p: string, t: string, c: char)
    requires c !in p
    ensures Split(p + t, c) == [p + Split(t, c)[0]] + Split(t, c)[1..]
  {
    if p != [] {
      assert (p + t)[1..] == p[1..] + t;
      assert (p + t)[0] == p[0] && p[0] != c;
      assert p == [p[0]] + p[1..];
      SplitAfter(p[1..], t, c);
      assert [p[0]] + (p[1..] + Split(t, c)[0]) == p + Split(t, c)[0];
    } else {
      assert [] + t == t && [] + Split(t, c)[0] == Split(t, c)[0];
      assert Split(t, c) == [Split(t, c)[0]] + Split(t, c)[1..];
    }
  }

  /** Split undoes Join when no part holds the separator. */
  lemma {:induction false} SplitJoin(parts: seq<string>, c: char)
    requires |parts| >= 1
    requires forall i :: 0 <= i < |parts| ==> c !in parts[i]
    ensures Split(Join(parts, c), c) == parts
  {
    if |parts| == 1 {
      assert c !in parts[0];
      SplitAfter(parts[0], [], c);
      assert parts[0] + [] == parts[0] && Split([], c) == [[]];
      assert Split(parts[0], c) == [parts[0]];
      assert parts == [parts[0]];
    } else {
      SplitJoin(parts[1..], c);
      var rest := Join(parts[1..], c);
      assert parts[0] + [c] + rest == parts[0] + ([c] + rest);
      assert c !in parts[0];
      SplitAfter(parts[0], [c] + rest, c);
      assert ([c] + rest)[1..] == rest;
      assert Split([c] + rest, c) == [[]] + Split(rest, c);
      assert parts[0] + [] == parts[0];
      assert parts == [parts[0]] + parts[1..];
    }
  }

  /** `lines()`: the text cut at each line feed; a `\r` before it is whitespace that `trim` removes. */
  function Lines(text: string): seq<string> {
    Split(text, '\n')
  }

  /** Lines each followed by a line feed, as the printers emit them. */
  function Terminated(ls: seq<string>): string {
    if ls == [] then [] else ls[0] + "\n" + Terminated(ls[1..])
  }

  /** Cutting terminated lines gives them back, with one empty piece after the last feed. */
  lemma {:induction false} LinesOfTerminated(ls: seq<string>)
    requires forall i :: 0 <= i < |ls| ==> '\n' !in ls[i]
    ensures Lines(Terminated(ls)) == ls + [[]]
  {
    if ls != [] {
      LinesOfTerminated(ls[1..]);
      var rest := Terminated(ls[1..]);
      assert ls[0] + "\n" + rest == ls[0] + ("\n" + rest);
      assert '\n' !in ls[0];
      SplitAfter(ls[0], "\n" + rest, '\n');
      assert ("\n" + rest)[1..] == rest;
      assert Split("\n" + rest, '\n') == [[]] + Lines(rest);
      assert ls[0] + [] == ls[0];
      assert ls == [ls[0]] + ls[1..];
    } else {
      assert Lines([]) == [[]];
    }
  }

  /** One more terminated line. */
  lemma {:induction false} TerminatedSnoc(ls: seq<string>, l: string)
    ensures Terminated(ls + [l]) == Terminated(ls) + l + "\n"
  {
    if ls != [] {
      assert (ls + [l])[1..] == ls[1..] + [l];
      TerminatedSnoc(ls[1..], l);
    } else {
      assert [l][1..] == [];
    }
  }

  /** The trimmed non-blank lines, in order: the lines a parser turns into entries. */
  function NonBlank(lines: seq<string>): seq<string> {
    if lines == [] then []
    else
      var t := Trim(lines[0]);
      if t == [] then NonBlank(lines[1..])
      else [t] + NonBlank(lines[1..])
  }

  /** Every non-blank line is non-empty and already trimmed. */
  lemma {:induction false} NonBlankTrimmed(lines: seq<string>)
    ensures forall i :: 0 <= i < |NonBlank(lines)| ==>
      NonBlank(lines)[i] != [] && Trim(NonBlank(lines)[i]) == NonBlank(lines)[i]
  {
    if lines != [] {
      NonBlankTrimmed(lines[1..]);
      var t := Trim(lines[0]);
      if t != [] {
        TrimTwice(lines[0]);
        var r, rest := NonBlank(lines), NonBlank(lines[1..]);
        assert r == [t] + rest;
        forall i | 1 <= i < |r| ensures r[i] != [] && Trim(r[i]) == r[i] {
          assert r[i] == rest[i - 1];
        }
      }
    }
  }

  /**
   * One step of `splitn(_, char::is_whitespace)`: the text before the first whitespace
   * character, and the text after it if there is one.
   */
  function SplitWs(s: string): (r: (string, Option<string>))
    ensures NoWs(r.0)
    ensures r.1.None? ==> r.0 == s
    ensures r.1.Some? ==> |r.0| < |s| && IsWs(s[|r.0|]) && r.0 == s[..|r.0|] && r.1.value == s[|r.0| + 1..]
  {
    if s == [] then ([], None)
    else if IsWs(s[0]) then ([], Some(s[1..]))
    else
      var (h, t) := SplitWs(s[1..]);
      ([s[0]] + h, t)
  }

  /** Splitting a token, a whitespace character and a tail gives back the token and that tail. */
  lemma {:induction false} SplitWsAt(h: string, w: char, t: string)
    requires NoWs(h) && IsWs(w)
    ensures SplitWs(h + [w] + t) == (h, Some(t))
  {
    if h == [] {
      assert [] + [w] + t == [w] + t && ([w] + t)[1..] == t;
    } else {
      assert (h + [w] + t)[1..] == h[1..] + [w] + t;
      assert (h + [w] + t)[0] == h[0];
      SplitWsAt(h[1..], w, t);
      assert [h[0]] + h[1..] == h;
    }
  }

  /** A token without whitespace is not split. */
  lemma {:induction false} SplitWsWhole(h: string)
    requires NoWs(h)
    ensures SplitWs(h) == (h, None)
  {
    if h != [] {
      SplitWsWhole(h[1..]);
      assert [h[0]] + h[1..] == h;
    }
  }
}
