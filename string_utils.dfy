/**
  The string helpers the core calls: the commons-style `StringUtils.containsAny`
  and `StringUtils.stripEnd`, Java's `String.split` and
  `String.equalsIgnoreCase`. Separators are a single literal character.
 */
module StringUtils {

  /** `containsAny(cs, searchChars)`: some character of `searchChars` occurs in `cs`
      (false when either is empty). */
  predicate ContainsAny(cs: string, searchChars: string)
    ensures ContainsAny(cs, searchChars) ==> cs != [] && searchChars != []
    ensures ContainsAny(cs, searchChars) <==> exists k :: 0 <= k < |cs| && cs[k] in searchChars
  {
    exists i, j :: 0 <= i < |cs| && 0 <= j < |searchChars| && cs[i] == searchChars[j]
  }

  /** With a one-character first argument, `containsAny` is plain membership. */
  lemma ContainsAnySingle(c: char, s: string)
    ensures ContainsAny([c], s) <==> c in s
  {
    if c in s {
      var j :| 0 <= j < |s| && s[j] == c;
      assert [c][0] == s[j];
    }
  }

  /** `stripEnd(s, c)`: `s` without its trailing run of `c` characters. */
  function StripEnd(s: string, c: char): (r: string)
    ensures r <= s
    ensures r == [] || r[|r| - 1] != c
    ensures forall i :: |r| <= i < |s| ==> s[i] == c
    decreases |s|
  {
    if |s| > 0 && s[|s| - 1] == c then StripEnd(s[..|s| - 1], c) else s
  }

  /** One trailing `c` more or less makes no difference to `StripEnd`. */
  lemma StripEndAppended(s: string, c: char)
    ensures StripEnd(s + [c], c) == StripEnd(s, c)
  {
    assert (s + [c])[..|s|] == s;
  }

  /** Every piece between two occurrences of `c`, empty pieces included;
      the regular-expression split before Java drops trailing empty strings. */
  function SplitAll(s: string, c: char): (pieces: seq<string>)
    ensures |pieces| >= 1
    ensures forall k :: 0 <= k < |pieces| ==> c !in pieces[k]
    decreases |s|
  {
    if |s| == 0 then [""]
    else
      var rest := SplitAll(s[1..], c);
      if s[0] == c then [""] + rest
      else [[s[0]] + rest[0]] + rest[1..]
  }

  /** The pieces of a split put back together with `c` between them. */
  function Join(pieces: seq<string>, c: char): string
  {
    if |pieces| == 0 then ""
    else if |pieces| == 1 then pieces[0]
    else pieces[0] + [c] + Join(pieces[1..], c)
  }

  /** Joining what `SplitAll` cut gives back the original string. */
  lemma {:induction false} JoinSplitAll(s: string, c: char)
    ensures Join(SplitAll(s, c), c) == s
    decreases |s|
  {
    if |s| > 0 {
      var rest := SplitAll(s[1..], c);
      JoinSplitAll(s[1..], c);
      if s[0] == c {
        assert Join([""] + rest, c) == "" + [c] + Join(rest, c) by {
          assert ([""] + rest)[1..] == rest;
        }
      } else {
        var pieces := [[s[0]] + rest[0]] + rest[1..];
        assert pieces[1..] == rest[1..];
        if |rest| > 1 {
          assert Join(rest, c) == rest[0] + [c] + Join(rest[1..], c);
        }
        assert s == [s[0]] + s[1..];
      }
    }
  }

  /** A string without `c` is a single piece. */
  lemma {:induction false} SplitAllPlain(a: string, c: char)
    requires c !in a
    ensures SplitAll(a, c) == [a]
    decreases |a|
  {
    if |a| > 0 {
      SplitAllPlain(a[1..], c);
      assert [a[0]] + a[1..] == a;
    }
  }

  /** A `c`-free head followed by `c` is cut off as the first piece. */
  lemma {:induction false} SplitAllHead(a: string, c: char, t: string)
    requires c !in a
    ensures SplitAll(a + [c] + t, c) == [a] + SplitAll(t, c)
    decreases |a|
  {
    if |a| == 0 {
      assert a + [c] + t == [c] + t;
      assert ([c] + t)[1..] == t;
    } else {
      var s := a + [c] + t;
      assert s[1..] == a[1..] + [c] + t;
      SplitAllHead(a[1..], c, t);
      assert [a[0]] + a[1..] == a;
    }
  }

  /** Splitting what `Join` built gives back the pieces, when no piece holds `c`. */
  lemma {:induction false} SplitAllJoin(pieces: seq<string>, c: char)
    requires |pieces| >= 1
    requires forall k :: 0 <= k < |pieces| ==> c !in pieces[k]
    ensures SplitAll(Join(pieces, c), c) == pieces
    decreases |pieces|
  {
    if |pieces| == 1 {
      SplitAllPlain(pieces[0], c);
    } else {
      SplitAllJoin(pieces[1..], c);
      SplitAllHead(pieces[0], c, Join(pieces[1..], c));
      assert [pieces[0]] + pieces[1..] == pieces;
    }
  }

  /** Java's split with limit 0 drops the trailing empty strings. */
  function DropTrailingEmpty(pieces: seq<string>): (r: seq<string>)
    ensures r <= pieces
    ensures r == [] || r[|r| - 1] != ""
    ensures forall k :: |r| <= k < |pieces| ==> pieces[k] == ""
    decreases |pieces|
  {
    if |pieces| > 0 && pieces[|pieces| - 1] == "" then DropTrailingEmpty(pieces[..|pieces| - 1])
    else pieces
  }

  /** `s.split(c)` for a literal one-character pattern `c`: the whole string
      when `c` does not occur, otherwise the pieces without trailing empties. */
  function Split(s: string, c: char): (pieces: seq<string>)
    ensures forall k :: 0 <= k < |pieces| ==> c !in pieces[k]
    ensures c !in s ==> pieces == [s]
    ensures c in s ==> pieces <= SplitAll(s, c) && (pieces == [] || pieces[|pieces| - 1] != "")
  {
    if c !in s then [s] else DropTrailingEmpty(SplitAll(s, c))
  }

  /** The pieces `Split` keeps, joined back, are the string minus the
      separators that closed the dropped trailing empty pieces. */
  lemma SplitRejoins(s: string, c: char)
    requires c in s
    ensures Join(Split(s, c), c) <= s
    ensures forall i :: |Join(Split(s, c), c)| <= i < |s| ==> s[i] == c
  {
    var all := SplitAll(s, c);
    var kept := Split(s, c);
    JoinSplitAll(s, c);
    JoinDroppedEmpties(kept, all[|kept|..], c);
    assert kept + all[|kept|..] == all;
  }

  /** Appending empty pieces adds only separator characters to a join. */
  lemma {:induction false} JoinDroppedEmpties(kept: seq<string>, empties: seq<string>, c: char)
    requires forall k :: 0 <= k < |empties| ==> empties[k] == ""
    ensures Join(kept, c) <= Join(kept + empties, c)
    ensures forall i :: |Join(kept, c)| <= i < |Join(kept + empties, c)| ==> Join(kept + empties, c)[i] == c
    decreases |kept|, |empties|
  {
    if |empties| == 0 {
      assert kept + empties == kept;
    } else if |kept| == 0 {
      assert kept + empties == empties;
      JoinOfEmpties(empties, c);
    } else if |kept| == 1 {
      assert (kept + empties)[1..] == empties;
      JoinOfEmpties(empties, c);
    } else {
      assert (kept + empties)[1..] == kept[1..] + empties;
      JoinDroppedEmpties(kept[1..], empties, c);
    }
  }

  /** Joining only empty pieces yields only separators. */
  lemma {:induction false} JoinOfEmpties(empties: seq<string>, c: char)
    requires forall k :: 0 <= k < |empties| ==> empties[k] == ""
    ensures forall i :: 0 <= i < |Join(empties, c)| ==> Join(empties, c)[i] == c
    decreases |empties|
  {
    if |empties| > 1 {
      JoinOfEmpties(empties[1..], c);
    }
  }

  /** Java's `equalsIgnoreCase`, for characters whose case mapping stays in ASCII. */
  predicate NoAsciiCapitals(s: string)
  {
    forall i :: 0 <= i < |s| ==> !('A' <= s[i] <= 'Z')
  }

  function ToLowerAscii(ch: char): char
  {
    if 'A' <= ch <= 'Z' then (ch as int + 32) as char else ch
  }

  /** Two characters are the same letter up to ASCII case: equal, or an ASCII capital
      and its small letter in either order. */
  predicate CaseVariant(x: char, y: char)
  {
    x == y
    || ('A' <= x <= 'Z' && y as int == x as int + 32)
    || ('A' <= y <= 'Z' && x as int == y as int + 32)
  }

  /** Same length, and equal position by position once ASCII upper case is folded to
      lower case; every string equals itself, and strings without ASCII capitals are
      equal ignoring case only when they are equal. */
  predicate EqualsIgnoreCase(a: string, b: string)
    ensures EqualsIgnoreCase(a, b) ==> |a| == |b|
    ensures a == b ==> EqualsIgnoreCase(a, b)
    ensures NoAsciiCapitals(a) && NoAsciiCapitals(b) ==> (EqualsIgnoreCase(a, b) <==> a == b)
  {
    |a| == |b| && forall i :: 0 <= i < |a| ==> ToLowerAscii(a[i]) == ToLowerAscii(b[i])
  }

  /** `equalsIgnoreCase` holds exactly for strings of equal length that differ at most in
      the ASCII case of their letters, so "TopNav" and "topnav" are equal ignoring case. */
  lemma EqualsIgnoreCaseIffCaseVariants(a: string, b: string)
    ensures EqualsIgnoreCase(a, b) <==>
      |a| == |b| && forall i :: 0 <= i < |a| ==> CaseVariant(a[i], b[i])
  {
    if |a| == |b| {
      forall i | 0 <= i < |a|
        ensures ToLowerAscii(a[i]) == ToLowerAscii(b[i]) <==> CaseVariant(a[i], b[i])
      {
        FoldedEqualIffCaseVariant(a[i], b[i]);
      }
    }
  }

  /** Folding two characters to lower case makes them equal iff they are case variants. */
  lemma FoldedEqualIffCaseVariant(x: char, y: char)
    ensures ToLowerAscii(x) == ToLowerAscii(y) <==> CaseVariant(x, y)
  {
  }

  /** `equalsIgnoreCase` does not depend on the order of its arguments. */
  lemma EqualsIgnoreCaseSymmetric(a: string, b: string)
    ensures EqualsIgnoreCase(a, b) == EqualsIgnoreCase(b, a)
  {
    EqualsIgnoreCaseIffCaseVariants(a, b);
    EqualsIgnoreCaseIffCaseVariants(b, a);
  }

}
