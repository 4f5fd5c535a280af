/** 8.3 file names (src/fs/fat.c:198-239, 446-476): how a name typed by the
    user is stored in a directory entry, and how a stored name is compared
    with a typed one.  Strings are byte sequences without their terminator. */
module Names {

  const SPACE: nat := 0x20
  const DOT: nat := 0x2E

  /** A C string: no zero byte inside. */
  predicate CString(s: seq<nat>)
  {
    forall i :: 0 <= i < |s| ==> s[i] != 0
  }

  function UpperChar(c: nat): nat { if 0x61 <= c <= 0x7A then c - 32 else c }

  /** Two characters are the same up to case: equal, or the two forms of one
      letter. */
  lemma SameUpToCase(c: nat, d: nat)
    ensures UpperChar(c) == UpperChar(d) <==>
            c == d || (0x41 <= c <= 0x5A && d == c + 0x20) || (0x41 <= d <= 0x5A && c == d + 0x20)
  {
  }

  function Upper(s: seq<nat>): (r: seq<nat>)
    ensures |r| == |s|
  {
    seq<nat>(|s|, i requires 0 <= i < |s| => UpperChar(s[i]))
  }

  /** The characters of s before the first c. */
  function Until(s: seq<nat>, c: nat): (r: seq<nat>)
    ensures |r| <= |s| && r == s[..|r|] && c !in r
    ensures |r| < |s| ==> s[|r|] == c
  {
    if s == [] || s[0] == c then [] else [s[0]] + Until(s[1..], c)
  }

  /** The text that a stored name stands for: the name up to its first blank
      and, unless the extension is blank, a dot and the extension. */
  function Shown(name: seq<nat>, ext: seq<nat>): (r: seq<nat>)
    requires |name| == 8 && |ext| == 3
    ensures |r| <= 12
  {
    Until(name, SPACE) + if ext[0] == SPACE then [] else [DOT] + Until(ext, SPACE)
  }

  /** What a comparison sees of it: a zero byte would end the text. */
  function ShownText(name: seq<nat>, ext: seq<nat>): seq<nat>
    requires |name| == 8 && |ext| == 3
  {
    Until(Shown(name, ext), 0)
  }

  /** fat_filename_match: equal up to ASCII case. */
  predicate Matches(name: seq<nat>, ext: seq<nat>, input: seq<nat>)
    requires |name| == 8 && |ext| == 3
  {
    Upper(ShownText(name, ext)) == Upper(input)
  }

  function Pad(s: seq<nat>, n: nat): (r: seq<nat>)
    requires |s| <= n
    ensures |r| == n
  {
    s + seq<nat>(n - |s|, i requires 0 <= i < n - |s| => SPACE)
  }

  function Take(s: seq<nat>, n: nat): (r: seq<nat>)
    ensures |r| <= n && r <= s
  {
    if |s| <= n then s else s[..n]
  }

  /** The part before the first dot, and the part after it. */
  function Base(f: seq<nat>): (r: seq<nat>) { Until(f, DOT) }
  function Rest(f: seq<nat>): (r: seq<nat>)
  {
    if |Base(f)| < |f| then f[|Base(f)| + 1..] else []
  }

  /** The 8 + 3 bytes that fat_create_entry stores for a name. */
  function StoredName(f: seq<nat>): (r: seq<nat>)
    ensures |r| == 8
  {
    Pad(Upper(Take(Base(f), 8)), 8)
  }

  function StoredExt(f: seq<nat>): (r: seq<nat>)
    ensures |r| == 3
  {
    Pad(Upper(Take(Rest(f), 3)), 3)
  }

  // ---------------------------------------------------------------------
  // Which names survive
  // ---------------------------------------------------------------------

  /** At most eight characters, or at most eight, a dot and one to three more
      (which may be dots); no blanks. */
  predicate EightThree(f: seq<nat>)
  {
    && SPACE !in f && |Base(f)| <= 8
    && (|Base(f)| < |f| ==> 1 <= |Rest(f)| <= 3)
  }

  lemma {:induction false} UntilPadded(s: seq<nat>, n: nat)
    requires |s| <= n && SPACE !in s
    ensures Until(Pad(s, n), SPACE) == s
    decreases |s|
  {
    if s == [] {
      assert n > 0 ==> Pad(s, n)[0] == SPACE;
    } else {
      assert Pad(s, n)[1..] == Pad(s[1..], n - 1);
      UntilPadded(s[1..], n - 1);
    }
  }

  lemma {:induction false} UntilAbsent(s: seq<nat>, c: nat)
    requires c !in s
    ensures Until(s, c) == s
  {
    if s != [] {
      UntilAbsent(s[1..], c);
    }
  }

  lemma UpperKeeps(s: seq<nat>, c: nat)
    requires c == SPACE || c == DOT || c == 0
    ensures c in Upper(s) <==> c in s
  {
    if c in s {
      var i :| 0 <= i < |s| && s[i] == c;
      assert Upper(s)[i] == c;
    }
    if c in Upper(s) {
      var i :| 0 <= i < |s| && Upper(s)[i] == c;
      assert s[i] == c;
    }
  }

  lemma UpperConcat(a: seq<nat>, b: seq<nat>)
    ensures Upper(a + b) == Upper(a) + Upper(b)
  {
  }

  lemma UpperTwice(s: seq<nat>)
    ensures Upper(Upper(s)) == Upper(s)
  {
  }

  lemma SplitAtDot(f: seq<nat>)
    ensures f == Base(f) + if |Base(f)| < |f| then [DOT] + Rest(f) else []
  {
  }

  /** A stored 8.3 name reads back as the upper-case spelling. */
  lemma StoredReadsBack(f: seq<nat>)
    requires EightThree(f) && CString(f)
    ensures Shown(StoredName(f), StoredExt(f)) == Upper(f)
  {
    SplitAtDot(f);
    UpperKeeps(Base(f), SPACE);
    UntilPadded(Upper(Base(f)), 8);
    if |Base(f)| < |f| {
      UpperKeeps(Rest(f), SPACE);
      UntilPadded(Upper(Rest(f)), 3);
      assert StoredExt(f)[0] == Upper(Rest(f))[0];
      assert StoredExt(f)[0] != SPACE by {
        assert Upper(Rest(f))[0] in Upper(Rest(f));
      }
      UpperConcat(Base(f), [DOT] + Rest(f));
      UpperConcat([DOT], Rest(f));
      assert Upper([DOT]) == [DOT];
    } else {
      assert StoredExt(f)[0] == SPACE;
      assert f == Base(f);
    }
  }

  /** For an 8.3 name the stored entry matches exactly the spellings that
      differ in ASCII case only. */
  lemma MatchesUpToCase(f: seq<nat>, g: seq<nat>)
    requires EightThree(f) && CString(f)
    ensures Matches(StoredName(f), StoredExt(f), g) <==> Upper(g) == Upper(f)
  {
    StoredReadsBack(f);
    UpperKeeps(f, 0);
    UntilAbsent(Upper(f), 0);
    UpperTwice(f);
  }

  lemma ShownHasNoBlank(name: seq<nat>, ext: seq<nat>)
    requires |name| == 8 && |ext| == 3
    ensures SPACE !in ShownText(name, ext)
  {
  }

  /** Length of what is stored for a name without blanks. */
  lemma ShownLength(f: seq<nat>)
    requires SPACE !in f
    ensures var b, r := |Take(Base(f), 8)|, |Take(Rest(f), 3)|;
            |Shown(StoredName(f), StoredExt(f))| == b + if r == 0 then 0 else 1 + r
  {
    var base, rest := Take(Base(f), 8), Take(Rest(f), 3);
    UpperKeeps(base, SPACE);
    UpperKeeps(rest, SPACE);
    UntilPadded(Upper(base), 8);
    UntilPadded(Upper(rest), 3);
    if rest == [] {
      assert StoredExt(f)[0] == SPACE;
    } else {
      assert StoredExt(f)[0] == Upper(rest)[0];
      assert Upper(rest)[0] in Upper(rest);
    }
  }

  /** A name is found again under the spelling it was created with exactly
      when it has 8.3 shape. */
  lemma FoundAsTypedExactly(f: seq<nat>)
    requires CString(f)
    ensures Matches(StoredName(f), StoredExt(f), f) <==> EightThree(f)
  {
    if EightThree(f) {
      MatchesUpToCase(f, f);
    } else if Matches(StoredName(f), StoredExt(f), f) {
      ShownHasNoBlank(StoredName(f), StoredExt(f));
      UpperKeeps(ShownText(StoredName(f), StoredExt(f)), SPACE);
      UpperKeeps(f, SPACE);
      ShownLength(f);
      SplitAtDot(f);
      assert false;
    }
  }

  // ---------------------------------------------------------------------
  // The code
  // ---------------------------------------------------------------------

  lemma {:induction false} UntilIs(s: seq<nat>, c: nat, k: nat)
    requires k <= |s| && c !in s[..k] && (k < |s| ==> s[k] == c)
    ensures Until(s, c) == s[..k]
    decreases |s|
  {
    if k > 0 {
      assert s[1..][..k - 1] == s[..k][1..];
      UntilIs(s[1..], c, k - 1);
    }
  }

  /** Copies s up to its first blank into temp, from idx on. */
  method CopyUntilBlank(s: seq<nat>, temp: array<nat>, idx: nat) returns (end: nat)
    requires idx + |s| <= temp.Length
    modifies temp
    ensures end == idx + |Until(s, SPACE)|
    ensures temp[..end] == old(temp[..idx]) + Until(s, SPACE)
  {
    end := idx;
    for i := 0 to |s|
      invariant end == idx + i && SPACE !in s[..i]
      invariant temp[..end] == old(temp[..idx]) + s[..i]
    {
      if s[i] == SPACE {
        UntilIs(s, SPACE, i);
        return;
      }
      temp[end] := s[i];
      end := end + 1;
    }
    UntilIs(s, SPACE, |s|);
  }

  /** fat_filename_match, with room for a full 8.3 name and its terminator. */
  method FilenameMatch(name: seq<nat>, ext: seq<nat>, input: seq<nat>) returns (same: bool)
    requires |name| == 8 && |ext| == 3 && CString(input)
    ensures same <==> Matches(name, ext, input)
  {
    var temp := new nat[13];
    var idx := CopyUntilBlank(name, temp, 0);
    if ext[0] != SPACE {
      temp[idx] := DOT;
      idx := CopyUntilBlank(ext, temp, idx + 1);
    }
    temp[idx] := 0;
    assert temp[..idx] == Shown(name, ext);
    same := SameText(temp, idx, input);
  }

  /** The comparison loop, on the text of idx characters in temp. */
  method SameText(temp: array<nat>, idx: nat, input: seq<nat>) returns (same: bool)
    requires idx < temp.Length && temp[idx] == 0 && CString(input)
    ensures same <==> Upper(Until(temp[..idx], 0)) == Upper(input)
  {
    var i := 0;
    while temp[i] != 0 && i < |input|
      invariant i <= idx && i <= |input| && 0 !in temp[..i]
      invariant forall j :: 0 <= j < i ==> UpperChar(temp[j]) == UpperChar(input[j])
      decreases |input| - i
    {
      if UpperChar(temp[i]) != UpperChar(input[i]) {
        ghost var text := Until(temp[..idx], 0);
        TextReaches(temp[..idx], i);
        assert Upper(text)[i] != Upper(input)[i];
        return false;
      }
      i := i + 1;
    }
    same := temp[i] == 0 && i == |input|;
    if temp[i] == 0 {
      UntilIs(temp[..idx], 0, i);
    } else {
      TextReaches(temp[..idx], i);
    }
  }

  /** A text with no zero up to i is longer than i. */
  lemma {:induction false} TextReaches(s: seq<nat>, i: nat)
    requires i < |s| && 0 !in s[..i] && s[i] != 0
    ensures |Until(s, 0)| > i && Until(s, 0)[i] == s[i]
    decreases |s|
  {
    if i > 0 {
      assert s[1..][..i - 1] == s[..i][1..];
      TextReaches(s[1..], i - 1);
    }
  }

  lemma PadGrows(s: seq<nat>, k: nat, n: nat)
    requires k < |s| && k < n
    ensures Pad(Upper(s[..k]), n)[k := UpperChar(s[k])] == Pad(Upper(s[..k + 1]), n)
  {
    assert s[..k + 1] == s[..k] + [s[k]];
  }

  /** Up to n characters of filename from i on, before a stop character,
      upper-cased into a blank field. */
  method EncodeField(filename: seq<nat>, start: nat, n: nat, stopAtDot: bool) returns (field: seq<nat>, i: nat)
    requires start <= |filename|
    ensures start <= i <= start + n && i <= |filename|
    ensures field == Pad(Upper(filename[start..][..i - start]), n)
    ensures stopAtDot ==> DOT !in filename[start..i]
    ensures i < |filename| && i < start + n ==> stopAtDot && filename[i] == DOT
  {
    field := Pad([], n);
    i := start;
    ghost var s := filename[start..];
    var j := 0;
    assert Upper(s[..0]) == [];
    while i < |filename| && !(stopAtDot && filename[i] == DOT) && j < n
      invariant i == start + j <= |filename| && j <= n && (stopAtDot ==> DOT !in filename[start..i])
      invariant field == Pad(Upper(s[..j]), n)
    {
      PadGrows(s, j, n);
      field := field[j := UpperChar(filename[i])];
      i, j := i + 1, j + 1;
    }
  }

  /** The name parsing of fat_create_entry. */
  method EncodeName(filename: seq<nat>) returns (name: seq<nat>, ext: seq<nat>)
    ensures name == StoredName(filename) && ext == StoredExt(filename)
  {
    var n;
    name, n := EncodeField(filename, 0, 8, true);
    assert filename[0..] == filename && filename[..n - 0] == filename[..n];
    var i := n;
    while i < |filename| && filename[i] != DOT
      invariant n <= i <= |filename| && DOT !in filename[..i]
      invariant n < 8 ==> i == n
    {
      i := i + 1;
    }
    UntilIs(filename, DOT, i);
    assert Take(Base(filename), 8) == filename[..n];
    if i < |filename| && filename[i] == DOT {
      var k;
      ext, k := EncodeField(filename, i + 1, 3, false);
      assert Take(Rest(filename), 3) == filename[i + 1..][..k - (i + 1)];
    } else {
      ext := Pad([], 3);
      assert Upper([]) == [];
    }
  }
}
