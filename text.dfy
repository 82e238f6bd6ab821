/**
 * The JavaScript string built-ins that the changelog filter relies on:
 * `split`, `join`, `trim`, `includes`, `startsWith`, `replace` with a string
 * pattern, and `toLowerCase` (ASCII letters only).
 */
module Text {

  /** ECMAScript WhiteSpace and LineTerminator code points: what `String.prototype.trim` strips. */
  predicate IsWhitespace(c: char) {
    || c == ' ' || c == '\t' || c == '\n' || c == '\r' || c == '\U{000B}' || c == '\U{000C}'
    || c == '\U{00A0}' || c == '\U{1680}' || ('\U{2000}' <= c <= '\U{200A}')
    || c == '\U{2028}' || c == '\U{2029}' || c == '\U{202F}' || c == '\U{205F}'
    || c == '\U{3000}' || c == '\U{FEFF}'
  }

  /** Every character of `s` from index `lo` up to (not including) `hi` is whitespace. */
  predicate WhitespaceBetween(s: string, lo: nat, hi: nat)
    requires lo <= hi <= |s|
  {
    forall j :: lo <= j < hi ==> IsWhitespace(s[j])
  }

  /** `s.trimStart()`: the longest whitespace prefix is dropped. */
  function TrimStart(s: string): (r: string)
    ensures |r| <= |s| && r == s[|s| - |r|..]
    ensures r == [] || !IsWhitespace(r[0])
  {
    if |s| > 0 && IsWhitespace(s[0]) then
      var r := TrimStart(s[1..]);
      assert s[|s| - |r|..] == s[1..][|s| - 1 - |r|..];
      r
    else s
  }

  /** What `TrimStart` drops is whitespace. */
  lemma {:induction false} TrimStartDropsWhitespace(s: string)
    ensures WhitespaceBetween(s, 0, |s| - |TrimStart(s)|)
  {
    if |s| > 0 && IsWhitespace(s[0]) {
      TrimStartDropsWhitespace(s[1..]);
    }
  }

  /** `s.trimEnd()`: the longest whitespace suffix is dropped. */
  function TrimEnd(s: string): (r: string)
    ensures |r| <= |s| && r == s[..|r|]
    ensures r == [] || !IsWhitespace(r[|r| - 1])
  {
    if |s| > 0 && IsWhitespace(s[|s| - 1]) then
      var r := TrimEnd(s[..|s| - 1]);
      assert s[..|r|] == s[..|s| - 1][..|r|];
      r
    else s
  }

  /** What `TrimEnd` drops is whitespace. */
  lemma {:induction false} TrimEndDropsWhitespace(s: string)
    ensures WhitespaceBetween(s, |TrimEnd(s)|, |s|)
  {
    if |s| > 0 && IsWhitespace(s[|s| - 1]) {
      TrimEndDropsWhitespace(s[..|s| - 1]);
    }
  }

  /** `s.trim()`: whitespace is cut off at both ends; the result neither starts nor ends with whitespace. */
  function Trim(s: string): (r: string)
    ensures r == [] || (!IsWhitespace(r[0]) && !IsWhitespace(r[|r| - 1]))
  {
    TrimEnd(TrimStart(s))
  }

  /**
   * What `Trim` cuts off is whitespace: the result is the middle of `s`
   * between a whitespace prefix and a whitespace suffix.
   */
  lemma TrimIsMiddle(s: string)
    ensures exists i :: 0 <= i <= |s| - |Trim(s)| && Trim(s) == s[i..i + |Trim(s)|]
                        && WhitespaceBetween(s, 0, i) && WhitespaceBetween(s, i + |Trim(s)|, |s|)
  {
    var i := |s| - |TrimStart(s)|;
    TrimStartDropsWhitespace(s);
    TrimEndAt(s, TrimStart(s), i);
  }

  /** The part `TrimEnd` keeps of a suffix `t` of `s` that starts at index `i`, and what it drops, seen in `s`. */
  lemma TrimEndAt(s: string, t: string, i: nat)
    requires i <= |s| && t == s[i..]
    ensures i + |TrimEnd(t)| <= |s| && TrimEnd(t) == s[i..i + |TrimEnd(t)|]
    ensures WhitespaceBetween(s, i + |TrimEnd(t)|, |s|)
  {
    TrimEndDropsWhitespace(t);
    assert s[i..i + |TrimEnd(t)|] == t[..|TrimEnd(t)|];
  }

  /** Text that neither starts nor ends with whitespace is left as it is by `Trim`; in particular `Trim` is idempotent. */
  lemma TrimKeepsTrimmed(s: string)
    requires s == [] || (!IsWhitespace(s[0]) && !IsWhitespace(s[|s| - 1]))
    ensures Trim(s) == s
  {
    assert TrimStart(s) == s;
  }

  /** Trimming twice is trimming once. */
  lemma TrimIdempotent(s: string)
    ensures Trim(Trim(s)) == Trim(s)
  {
    TrimKeepsTrimmed(Trim(s));
  }

  /** Text that does not start with whitespace is left as it is by `TrimStart`. */
  lemma TrimStartKeeps(s: string)
    requires |s| > 0 && !IsWhitespace(s[0])
    ensures TrimStart(s) == s
  {
  }

  /** `s.startsWith(prefix)` */
  predicate StartsWith(s: string, prefix: string) {
    |prefix| <= |s| && s[..|prefix|] == prefix
  }

  /** `s.includes(t)`: `t` occurs somewhere in `s` (the empty string occurs everywhere). */
  predicate Contains(s: string, t: string) {
    StartsWith(s, t) || (|s| > 0 && Contains(s[1..], t))
  }

  /** `t` occurs in `s` starting at index `i`. */
  predicate OccursAt(s: string, t: string, i: int) {
    0 <= i <= |s| - |t| && s[i..i + |t|] == t
  }

  /** `Contains` looks for an occurrence at each index in turn: it holds exactly when `t` occurs at some index of `s`. */
  lemma {:induction false} ContainsOccurs(s: string, t: string)
    ensures Contains(s, t) <==> exists i :: OccursAt(s, t, i)
  {
    if StartsWith(s, t) {
      assert OccursAt(s, t, 0);
    } else if |s| > 0 {
      ContainsOccurs(s[1..], t);
      if exists i :: OccursAt(s[1..], t, i) {
        var i :| OccursAt(s[1..], t, i);
        assert s[i + 1..i + 1 + |t|] == s[1..][i..i + |t|];
        assert OccursAt(s, t, i + 1);
      }
      if exists i :: OccursAt(s, t, i) {
        var i :| OccursAt(s, t, i);
        assert i != 0;
        assert s[1..][i - 1..i - 1 + |t|] == s[i..i + |t|];
        assert OccursAt(s[1..], t, i - 1);
      }
    }
  }

  /** `s.replace(pat, rep)` with a string pattern: only the first occurrence is replaced. */
  function ReplaceFirst(s: string, pat: string, rep: string): (r: string)
    ensures StartsWith(s, pat) ==> r == rep + s[|pat|..]
    ensures !Contains(s, pat) ==> r == s
    decreases |s|
  {
    if StartsWith(s, pat) then rep + s[|pat|..]
    else if |s| == 0 then s
    else
      var tail := ReplaceFirst(s[1..], pat, rep);
      [s[0]] + tail
  }

  /** Where the first occurrence of `pat` is at index `i`, `ReplaceFirst` puts `rep` in its place and keeps the rest. */
  lemma {:induction false} ReplaceFirstAt(s: string, pat: string, rep: string, i: nat)
    requires OccursAt(s, pat, i)
    requires forall j :: 0 <= j < i ==> !OccursAt(s, pat, j)
    ensures ReplaceFirst(s, pat, rep) == s[..i] + rep + s[i + |pat|..]
    decreases i
  {
    if i == 0 {
      assert StartsWith(s, pat);
    } else {
      assert !OccursAt(s, pat, 0);
      var t := s[1..];
      OccursShift(s, pat, i - 1);
      forall j | 0 <= j < i - 1 ensures !OccursAt(t, pat, j) {
        OccursShift(s, pat, j);
      }
      ReplaceFirstAt(t, pat, rep, i - 1);
      assert [s[0]] + t[..i - 1] == s[..i];
      assert t[i - 1 + |pat|..] == s[i + |pat|..];
    }
  }

  /** An occurrence in the tail is an occurrence in the text, one index further on. */
  lemma OccursShift(s: string, pat: string, j: nat)
    requires |s| > 0
    ensures OccursAt(s[1..], pat, j) <==> OccursAt(s, pat, j + 1)
  {
    if j + 1 <= |s| - |pat| {
      assert s[1..][j..j + |pat|] == s[j + 1..j + 1 + |pat|];
    }
  }

  function LowerChar(c: char): char {
    if 'A' <= c <= 'Z' then (c as int - 'A' as int + 'a' as int) as char else c
  }

  /** `s.toLowerCase()`, restricted to the ASCII letters. */
  function ToLower(s: string): (r: string)
    ensures |r| == |s|
    ensures forall i :: 0 <= i < |s| ==> r[i] == LowerChar(s[i])
  {
    if |s| == 0 then [] else [LowerChar(s[0])] + ToLower(s[1..])
  }

  /** `s.split(sep)` for a one-character separator: the pieces between separators, at least one. */
  function Split(s: string, sep: char): (parts: seq<string>)
    ensures |parts| >= 1
  {
    if |s| == 0 then [""]
    else
      var rest := Split(s[1..], sep);
      if s[0] == sep then [""] + rest else [[s[0]] + rest[0]] + rest[1..]
  }

  /** No piece of a split holds the separator. */
  lemma {:induction false} SplitPieces(s: string, sep: char)
    ensures forall k :: 0 <= k < |Split(s, sep)| ==> sep !in Split(s, sep)[k]
  {
    if |s| > 0 {
      SplitPieces(s[1..], sep);
    }
  }

  /** `parts.join(sep)`; an empty array joins to the empty string. */
  function Join(parts: seq<string>, sep: string): string {
    if |parts| == 0 then ""
    else if |parts| == 1 then parts[0]
    else parts[0] + sep + Join(parts[1..], sep)
  }

  /** Joining the pieces of a split with the same separator gives back the text. */
  lemma {:induction false} JoinSplit(s: string, sep: char)
    ensures Join(Split(s, sep), [sep]) == s
  {
    if |s| > 0 {
      var rest := Split(s[1..], sep);
      JoinSplit(s[1..], sep);
      if s[0] != sep && |rest| > 1 {
        assert [[s[0]] + rest[0]] + rest[1..] == [[s[0]] + rest[0]] + rest[1..];
        assert ([[s[0]] + rest[0]] + rest[1..])[1..] == rest[1..];
      }
      assert s == [s[0]] + s[1..];
    }
  }

  /** Splitting a join gives back the pieces, when no piece holds the separator. */
  lemma {:induction false} SplitJoin(parts: seq<string>, sep: char)
    requires |parts| >= 1
    requires forall k :: 0 <= k < |parts| ==> sep !in parts[k]
    ensures Split(Join(parts, [sep]), sep) == parts
  {
    if |parts| == 1 {
      SplitNoSeparator(parts[0], sep);
    } else {
      SplitJoin(parts[1..], sep);
      SplitAfterPiece(parts[0], Join(parts[1..], [sep]), sep);
      assert [parts[0]] + parts[1..] == parts;
    }
  }

  lemma {:induction false} SplitNoSeparator(s: string, sep: char)
    requires sep !in s
    ensures Split(s, sep) == [s]
  {
    if |s| > 0 {
      assert sep !in s[1..] by { assert forall j :: 0 <= j < |s[1..]| ==> s[1..][j] == s[j + 1]; }
      SplitNoSeparator(s[1..], sep);
      assert s == [s[0]] + s[1..];
    }
  }

  lemma {:induction false} SplitAfterPiece(piece: string, rest: string, sep: char)
    requires sep !in piece
    ensures Split(piece + [sep] + rest, sep) == [piece] + Split(rest, sep)
  {
    if |piece| == 0 {
      assert piece + [sep] + rest == [sep] + rest;
      assert ([sep] + rest)[1..] == rest;
    } else {
      var s := piece + [sep] + rest;
      assert s[0] == piece[0];
      assert s[1..] == piece[1..] + [sep] + rest;
      assert sep !in piece[1..] by { assert forall j :: 0 <= j < |piece[1..]| ==> piece[1..][j] == piece[j + 1]; }
      SplitAfterPiece(piece[1..], rest, sep);
      assert [piece[0]] + piece[1..] == piece;
    }
  }

  /** A join starts with its first piece. */
  lemma JoinStartsWithFirst(parts: seq<string>, sep: string)
    requires |parts| >= 1
    ensures |parts[0]| <= |Join(parts, sep)| && Join(parts, sep)[..|parts[0]|] == parts[0]
  {
    if |parts| > 1 {
      assert Join(parts, sep) == parts[0] + (sep + Join(parts[1..], sep));
    }
  }

  /** Joining one more piece appends the separator and that piece. */
  lemma {:induction false} JoinSnoc(parts: seq<string>, x: string, sep: string)
    requires |parts| >= 1
    ensures Join(parts + [x], sep) == Join(parts, sep) + sep + x
  {
    if |parts| > 1 {
      assert (parts + [x])[1..] == parts[1..] + [x];
      JoinSnoc(parts[1..], x, sep);
    }
  }

  /** A text that ends with the separator splits into the pieces of the rest and an empty last piece. */
  lemma SplitDropSeparator(s: string, sep: char)
    requires |s| > 0 && s[|s| - 1] == sep
    ensures Split(s, sep) == Split(s[..|s| - 1], sep) + [""]
  {
    assert s == s[..|s| - 1] + [sep];
    SplitSnocSeparator(s[..|s| - 1], sep);
  }

  /** A text that ends with another character splits like the rest, with that character on the last piece. */
  lemma SplitDropOther(s: string, sep: char)
    requires |s| > 0 && s[|s| - 1] != sep
    ensures var parts := Split(s[..|s| - 1], sep);
            Split(s, sep) == parts[..|parts| - 1] + [parts[|parts| - 1] + [s[|s| - 1]]]
  {
    assert s == s[..|s| - 1] + [s[|s| - 1]];
    SplitSnocOther(s[..|s| - 1], s[|s| - 1], sep);
  }

  /** A separator at the end opens an empty last piece. */
  lemma SplitSnocSeparator(s: string, sep: char)
    ensures Split(s + [sep], sep) == Split(s, sep) + [""]
  {
    var parts := Split(s, sep);
    JoinSplit(s, sep);
    SplitPieces(s, sep);
    JoinSnoc(parts, "", [sep]);
    assert s + [sep] == Join(parts + [""], [sep]);
    assert forall k :: 0 <= k < |parts + [""]| ==> sep !in (parts + [""])[k];
    SplitJoin(parts + [""], sep);
  }

  /** Any other character at the end extends the last piece. */
  lemma SplitSnocOther(s: string, c: char, sep: char)
    requires c != sep
    ensures var parts := Split(s, sep);
            Split(s + [c], sep) == parts[..|parts| - 1] + [parts[|parts| - 1] + [c]]
  {
    var parts := Split(s, sep);
    var m := |parts| - 1;
    var parts' := parts[..m] + [parts[m] + [c]];
    JoinSplit(s, sep);
    SplitPieces(s, sep);
    JoinExtendLast(parts, c, [sep]);
    PiecesExtendLast(parts, c, sep);
    SplitJoin(parts', sep);
  }

  /** Extending the last piece extends the join. */
  lemma JoinExtendLast(parts: seq<string>, c: char, sep: string)
    requires |parts| >= 1
    ensures Join(parts[..|parts| - 1] + [parts[|parts| - 1] + [c]], sep) == Join(parts, sep) + [c]
  {
    var m := |parts| - 1;
    if m > 0 {
      assert parts[..m] + [parts[m]] == parts;
      JoinSnoc(parts[..m], parts[m], sep);
      JoinSnoc(parts[..m], parts[m] + [c], sep);
    }
  }

  /** Extending the last piece by another character keeps the separator out of every piece. */
  lemma PiecesExtendLast(parts: seq<string>, c: char, sep: char)
    requires |parts| >= 1 && c != sep
    requires forall k :: 0 <= k < |parts| ==> sep !in parts[k]
    ensures var parts' := parts[..|parts| - 1] + [parts[|parts| - 1] + [c]];
            forall k :: 0 <= k < |parts'| ==> sep !in parts'[k]
  {
    var m := |parts| - 1;
    assert sep !in parts[m] + [c];
  }

  /** Removing leading whitespace commutes with adding a last character, unless everything is whitespace. */
  lemma {:induction false} TrimStartSnoc(s: string, c: char)
    ensures TrimStart(s + [c]) == if TrimStart(s) == [] && IsWhitespace(c) then [] else TrimStart(s) + [c]
  {
    if |s| == 0 {
      assert s + [c] == [c];
      assert [c][1..] == [];
    } else {
      assert (s + [c])[1..] == s[1..] + [c];
      TrimStartSnoc(s[1..], c);
    }
  }

  /** A whitespace character added at the end makes no difference to `Trim`. */
  lemma TrimSnocWhitespace(s: string, c: char)
    requires IsWhitespace(c)
    ensures Trim(s + [c]) == Trim(s)
  {
    TrimStartSnoc(s, c);
    var t := TrimStart(s);
    if t != [] {
      assert (t + [c])[..|t|] == t;
    }
  }

  /** `s.map(f)`: `f` applied to each element, in order. */
  function Map<A, B>(f: A -> B, s: seq<A>): (r: seq<B>)
    ensures |r| == |s|
  {
    if |s| == 0 then [] else Map(f, s[..|s| - 1]) + [f(s[|s| - 1])]
  }

  lemma {:induction false} MapAt<A, B>(f: A -> B, s: seq<A>, j: nat)
    requires j < |s|
    ensures Map(f, s)[j] == f(s[j])
  {
    if j < |s| - 1 {
      MapAt(f, s[..|s| - 1], j);
    }
  }

  lemma MapSnoc<A, B>(f: A -> B, s: seq<A>, x: A)
    ensures Map(f, s + [x]) == Map(f, s) + [f(x)]
  {
    assert (s + [x])[..|s|] == s;
  }

  lemma {:induction false} MapAppend<A, B>(f: A -> B, a: seq<A>, b: seq<A>)
    ensures Map(f, a + b) == Map(f, a) + Map(f, b)
  {
    if |b| > 0 {
      var n := |b| - 1;
      assert (a + b)[..|a| + n] == a + b[..n];
      MapAppend(f, a, b[..n]);
    } else {
      assert a + b == a;
    }
  }
}
