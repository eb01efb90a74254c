/** The Python string primitives the pipeline is built from, on `string`
    (a `seq<char>`): whitespace and character classes, `strip`, `split` and
    `join`, the `\s+` collapse of `re.sub`, argument-less `split()`, the `in`
    substring test and `lower()`.

    Whitespace is CPython's `str.isspace` set, which `re`'s `\s`, `strip()` and
    `split()` share.  Letters, digits, word characters and case folding are
    the ASCII ones. */
module Text {

  import opened Results

  /** CPython's `str.isspace`, by code point. */
  predicate IsSpace(c: char) {
    var n := c as int;
    || 9 <= n <= 13
    || 28 <= n <= 32
    || n == 0x85 || n == 0xA0 || n == 0x1680
    || 0x2000 <= n <= 0x200A
    || n == 0x2028 || n == 0x2029 || n == 0x202F || n == 0x205F || n == 0x3000
  }

  predicate IsDigit(c: char) { '0' <= c <= '9' }

  predicate IsAlpha(c: char) { 'a' <= c <= 'z' || 'A' <= c <= 'Z' }

  predicate IsAlnum(c: char) { IsAlpha(c) || IsDigit(c) }

  /** A character of `re`'s `\w` class, the one `\b` tests. */
  predicate IsWordChar(c: char) { IsAlnum(c) || c == '_' }

  function LowerChar(c: char): char {
    if 'A' <= c <= 'Z' then (c as int + 32) as char else c
  }

  function Lower(s: string): (r: string)
    ensures |r| == |s|
    ensures forall i | 0 <= i < |r| :: r[i] == LowerChar(s[i])
  {
    seq(|s|, i requires 0 <= i < |s| => LowerChar(s[i]))
  }

  /** Every `from` replaced by `to` (`str.replace` with one-character arguments). */
  function ReplaceChar(s: string, from: char, to: char): (r: string)
    ensures |r| == |s|
    ensures forall i | 0 <= i < |r| :: r[i] == if s[i] == from then to else s[i]
  {
    seq(|s|, i requires 0 <= i < |s| => if s[i] == from then to else s[i])
  }

  function Min(a: int, b: int): int { if a <= b then a else b }

  predicate StartsWith(s: string, prefix: string) {
    |prefix| <= |s| && s[..|prefix|] == prefix
  }

  predicate EndsWith(s: string, suffix: string) {
    |suffix| <= |s| && s[|s| - |suffix|..] == suffix
  }

  // ---------------------------------------------------------------------------
  // Substrings
  // ---------------------------------------------------------------------------

  predicate OccursAt(s: string, sub: string, i: int) {
    0 <= i && i + |sub| <= |s| && s[i..i + |sub|] == sub
  }

  /** Python's `sub in s`. */
  predicate Contains(s: string, sub: string) {
    exists i | 0 <= i <= |s| - |sub| :: OccursAt(s, sub, i)
  }

  /** A prefix of a text that avoids `sub` avoids it too. */
  lemma PrefixAvoids(s: string, prefix: string, sub: string)
    requires StartsWith(s, prefix) && !Contains(s, sub)
    ensures !Contains(prefix, sub)
  {
    if Contains(prefix, sub) {
      var j :| 0 <= j <= |prefix| - |sub| && OccursAt(prefix, sub, j);
      OccursInSlice(s, sub, 0, |prefix|, j);
    }
  }

  lemma OccursInSlice(s: string, sub: string, a: nat, b: nat, j: int)
    requires a <= b <= |s|
    requires OccursAt(s[a..b], sub, j)
    ensures OccursAt(s, sub, a + j)
  {
    var t := s[a..b];
    assert forall k | j <= k < j + |sub| :: t[k] == s[a + k];
    assert t[j..j + |sub|] == s[a + j..a + j + |sub|];
  }

  /** A string none of whose substrings is `sub` keeps that property in every slice. */
  lemma ContainsFromSlice(s: string, sub: string, a: nat, b: nat)
    requires a <= b <= |s|
    ensures Contains(s[a..b], sub) ==> Contains(s, sub)
  {
    if Contains(s[a..b], sub) {
      var j :| 0 <= j <= |s[a..b]| - |sub| && OccursAt(s[a..b], sub, j);
      OccursInSlice(s, sub, a, b, j);
    }
  }

  /** An occurrence inside a part that itself occurs in `s` after `a`. */
  lemma OccursWithin(s: string, a: string, part: string, i: nat, t: string, m: nat)
    requires OccursAt(s, a + part, i) && OccursAt(part, t, m)
    ensures OccursAt(s, t, i + |a| + m)
  {
    var w := s[i..i + |a| + |part|];
    assert w[|a|..] == part;
    assert forall k | m <= k < m + |t| :: part[k] == s[i + |a| + k];
    assert s[i + |a| + m..i + |a| + m + |t|] == part[m..m + |t|];
  }

  /** Where the parts of `a + x + b + y + c` sit. */
  lemma ConcatParts(a: string, x: string, b: string, y: string, c: string)
    ensures StartsWith(a + x + b + y + c, a + x + b)
    ensures OccursAt(a + x + b + y + c, y, |a| + |x| + |b|)
    ensures EndsWith(a + x + b + y + c, y + c)
  {
    var r := a + x + b + y + c;
    var k := |a| + |x| + |b|;
    assert r[..k] == a + x + b;
    assert r[k..k + |y|] == y;
    assert r[|r| - |y + c|..] == y + c;
  }

  /** A prefix of a part that occurs after `a` occurs there as well. */
  lemma OccursPrefix(s: string, a: string, part: string, i: nat, p: string)
    requires OccursAt(s, a + part, i) && StartsWith(part, p)
    ensures OccursAt(s, a + p, i)
  {
    assert forall k | 0 <= k < |a| + |p| :: (a + p)[k] == (a + part)[k];
    assert s[i..i + |a| + |p|] == (a + part)[..|a| + |p|];
  }

  /** The leftmost occurrence of `sub` in `s` at or after `i`. */
  function FindFrom(s: string, sub: string, i: nat): (r: Option<nat>)
    requires i <= |s|
    ensures r.Some? ==> i <= r.value && OccursAt(s, sub, r.value)
    ensures r.Some? ==> forall j | i <= j < r.value :: !OccursAt(s, sub, j)
    ensures r.None? ==> forall j | i <= j :: !OccursAt(s, sub, j)
    decreases |s| - i
  {
    if OccursAt(s, sub, i) then Some(i)
    else if i == |s| then None
    else FindFrom(s, sub, i + 1)
  }

  /** The leftmost occurrence of `sub` in `s` (`str.find`, with `None` for -1). */
  function Find(s: string, sub: string): (r: Option<nat>)
    ensures r.Some? ==> OccursAt(s, sub, r.value)
    ensures r.Some? ==> forall j | 0 <= j < r.value :: !OccursAt(s, sub, j)
    ensures r.None? <==> !Contains(s, sub)
  {
    FindFrom(s, sub, 0)
  }

  // ---------------------------------------------------------------------------
  // split / join with an explicit separator
  // ---------------------------------------------------------------------------

  /** Python's `sep.join(parts)`. */
  function Join(sep: string, parts: seq<string>): string {
    if |parts| == 0 then ""
    else if |parts| == 1 then parts[0]
    else parts[0] + sep + Join(sep, parts[1..])
  }

  lemma JoinOne(sep: string, parts: seq<string>)
    requires |parts| == 1
    ensures Join(sep, parts) == parts[0]
  {
  }

  lemma JoinTwo(sep: string, parts: seq<string>)
    requires |parts| == 2
    ensures Join(sep, parts) == parts[0] + sep + parts[1]
  {
    JoinOne(sep, parts[1..]);
  }

  /** Python's `s.split(sep)` for a non-empty separator: the text between
      successive leftmost non-overlapping occurrences of `sep`. */
  function Split(s: string, sep: string): (r: seq<string>)
    requires |sep| > 0
    ensures |r| >= 1
    ensures Join(sep, r) == s
    ensures |r| > 1 <==> Contains(s, sep)
    ensures forall k | 0 <= k < |r| :: !Contains(r[k], sep)
    decreases |s|
  {
    match Find(s, sep)
    case None => [s]
    case Some(i) =>
      var head := s[..i];
      assert !Contains(head, sep) by {
        if Contains(head, sep) {
          var j :| 0 <= j <= |head| - |sep| && OccursAt(head, sep, j);
          OccursInSlice(s, sep, 0, i, j);
        }
      }
      var rest := Split(s[i + |sep|..], sep);
      assert s == head + sep + s[i + |sep|..];
      [head] + rest
  }

  /** When `sep` starts `s`, splitting yields an empty head and the split of the rest. */
  lemma SplitLeadingSep(s: string, sep: string)
    requires |sep| > 0
    ensures Split(sep + s, sep) == [""] + Split(s, sep)
  {
    var t := sep + s;
    assert OccursAt(t, sep, 0);
    assert t[|sep|..] == s;
  }

  /** Splitting on a one-character separator: a head free of it is cut off exactly. */
  lemma SplitCharCons(a: string, sep: string, b: string)
    requires |sep| == 1
    requires !Contains(a, sep)
    ensures Split(a + sep + b, sep) == [a] + Split(b, sep)
  {
    var t := a + sep + b;
    assert OccursAt(t, sep, |a|);
    var f := Find(t, sep);
    assert f.Some?;
    if f.value < |a| {
      assert t[f.value..f.value + 1] == a[f.value..f.value + 1];
      assert OccursAt(a, sep, f.value);
    }
    assert f.value == |a|;
    assert t[..|a|] == a;
    assert t[|a| + 1..] == b;
  }

  /** A character absent from the separator and from every part is absent
      from the join. */
  lemma {:induction false} JoinAvoids(sep: string, parts: seq<string>, c: char)
    requires c !in sep
    requires forall k | 0 <= k < |parts| :: c !in parts[k]
    ensures c !in Join(sep, parts)
  {
    if |parts| > 1 {
      JoinAvoids(sep, parts[1..], c);
    }
  }

  /** A one-character string occurs wherever its character does. */
  lemma CharContained(s: string, sep: string)
    requires |sep| == 1
    ensures sep[0] in s ==> Contains(s, sep)
  {
    if sep[0] in s {
      var i :| 0 <= i < |s| && s[i] == sep[0];
      assert s[i..i + 1] == sep;
      assert OccursAt(s, sep, i);
    }
  }

  /** A one-character string occurs in `s` only where that character is. */
  lemma CharNotContained(s: string, sep: string)
    requires |sep| == 1 && sep[0] !in s
    ensures !Contains(s, sep)
  {
    forall i | 0 <= i <= |s| - 1
      ensures !OccursAt(s, sep, i)
    {
      assert s[i..i + 1][0] == s[i];
    }
  }

  /** The first part of a join starts the joined string. */
  lemma JoinStartsWithHead(sep: string, parts: seq<string>)
    requires |parts| >= 1
    ensures StartsWith(Join(sep, parts), parts[0])
  {
    if |parts| > 1 {
      assert Join(sep, parts) == parts[0] + (sep + Join(sep, parts[1..]));
    }
  }

  lemma OccursAfterSep(s: string, a: string, sep: string, rest: string, p: string)
    requires s == a + sep + rest && StartsWith(rest, p)
    ensures OccursAt(s, sep + p, |a|)
  {
    assert s[|a|..|a| + |sep| + |p|] == sep + rest[..|p|];
  }

  /** Every part of a join after the first directly follows a separator, and
      is followed by the next separator or by the end of the joined string. */
  lemma {:induction false} JoinPieceFollowsSep(sep: string, parts: seq<string>, j: nat) returns (i: nat)
    requires 1 <= j < |parts|
    ensures OccursAt(Join(sep, parts), sep + parts[j], i)
    ensures j == 1 ==> i == |parts[0]|
    ensures j + 1 < |parts| ==> OccursAt(Join(sep, parts), sep, i + |sep| + |parts[j]|)
    ensures j + 1 == |parts| ==> i + |sep| + |parts[j]| == |Join(sep, parts)|
  {
    if j == 1 {
      JoinSecondPiece(sep, parts);
      i := |parts[0]|;
    } else {
      var i' := JoinPieceFollowsSep(sep, parts[1..], j - 1);
      i := JoinShift(sep, parts, j, i');
    }
  }

  lemma JoinSecondPiece(sep: string, parts: seq<string>)
    requires 2 <= |parts|
    ensures OccursAt(Join(sep, parts), sep + parts[1], |parts[0]|)
    ensures 2 < |parts| ==> OccursAt(Join(sep, parts), sep, |parts[0]| + |sep| + |parts[1]|)
    ensures 2 == |parts| ==> |parts[0]| + |sep| + |parts[1]| == |Join(sep, parts)|
  {
    var s := Join(sep, parts);
    var rest := Join(sep, parts[1..]);
    var k := |parts[0]| + |sep|;
    assert s == parts[0] + sep + rest;
    assert s[k..|s|] == rest;
    JoinStartsWithHead(sep, parts[1..]);
    OccursAfterSep(s, parts[0], sep, rest, parts[1]);
    if 2 < |parts| {
      var after := Join(sep, parts[2..]);
      assert parts[1..][1..] == parts[2..];
      assert rest == parts[1] + sep + after;
      OccursAfterSep(rest, parts[1], sep, after, "");
      assert sep + "" == sep;
      OccursInSlice(s, sep, k, |s|, |parts[1]|);
    } else {
      assert rest == parts[1];
    }
  }

  /** The facts about piece `j - 1` of the tail carry over to piece `j`,
      shifted by the first part and one separator. */
  lemma JoinShift(sep: string, parts: seq<string>, j: nat, i': nat) returns (i: nat)
    requires 2 <= j < |parts|
    requires OccursAt(Join(sep, parts[1..]), sep + parts[j], i')
    requires j + 1 < |parts| ==> OccursAt(Join(sep, parts[1..]), sep, i' + |sep| + |parts[j]|)
    requires j + 1 == |parts| ==> i' + |sep| + |parts[j]| == |Join(sep, parts[1..])|
    ensures OccursAt(Join(sep, parts), sep + parts[j], i)
    ensures j + 1 < |parts| ==> OccursAt(Join(sep, parts), sep, i + |sep| + |parts[j]|)
    ensures j + 1 == |parts| ==> i + |sep| + |parts[j]| == |Join(sep, parts)|
  {
    var s := Join(sep, parts);
    var k := |parts[0]| + |sep|;
    assert s == parts[0] + sep + Join(sep, parts[1..]);
    assert s[k..|s|] == Join(sep, parts[1..]);
    OccursInSlice(s, sep + parts[j], k, |s|, i');
    if j + 1 < |parts| {
      OccursInSlice(s, sep, k, |s|, i' + |sep| + |parts[j]|);
    }
    i := k + i';
  }

  /** `piece` follows a `sep` at `i` and runs to the next `sep` or to the end. */
  predicate Delimited(s: string, sep: string, piece: string, i: nat) {
    && OccursAt(s, sep + piece, i)
    && (i + |sep| + |piece| == |s| || OccursAt(s, sep, i + |sep| + |piece|))
  }

  /** Every piece of a join after the first directly follows a separator, and
      runs up to the next separator or to the end; applied to `Split(s, sep)`,
      whose join is `s`, this places every split piece in `s`. */
  lemma JoinedPieceFollowsSep(s: string, sep: string, parts: seq<string>, j: nat) returns (i: nat)
    requires Join(sep, parts) == s && 1 <= j < |parts|
    ensures Delimited(s, sep, parts[j], i)
    ensures OccursAt(s, sep + parts[j], i)
    ensures j == 1 ==> i == |parts[0]|
    ensures j + 1 < |parts| ==> OccursAt(s, sep, i + |sep| + |parts[j]|)
    ensures j + 1 == |parts| ==> i + |sep| + |parts[j]| == |s|
  {
    i := JoinPieceFollowsSep(sep, parts, j);
    EqualOccurs(Join(sep, parts), s, sep + parts[j], i);
    EqualOccurs(Join(sep, parts), s, sep, i + |sep| + |parts[j]|);
  }

  lemma EqualOccurs(s: string, t: string, sub: string, i: int)
    requires s == t
    ensures OccursAt(s, sub, i) ==> OccursAt(t, sub, i)
  {
  }

  /** The first split piece starts `s`; it is all of `s` when there is no
      separator, and otherwise ends where the leftmost separator begins. */
  lemma SplitHead(s: string, sep: string)
    requires |sep| > 0
    ensures StartsWith(s, Split(s, sep)[0])
    ensures |Split(s, sep)| == 1 ==> Split(s, sep)[0] == s
    ensures |Split(s, sep)| > 1 ==> Find(s, sep) == Some(|Split(s, sep)[0]|)
  {
    JoinStartsWithHead(sep, Split(s, sep));
  }

  // ---------------------------------------------------------------------------
  // strip
  // ---------------------------------------------------------------------------

  function TrimStart(s: string): (r: string)
    ensures |r| <= |s| && r == s[|s| - |r|..]
    ensures forall i | 0 <= i < |s| - |r| :: IsSpace(s[i])
    ensures |r| > 0 ==> !IsSpace(r[0])
    decreases |s|
  {
    if |s| > 0 && IsSpace(s[0]) then TrimStart(s[1..]) else s
  }

  function TrimEnd(s: string): (r: string)
    ensures |r| <= |s| && r == s[..|r|]
    ensures forall i | |r| <= i < |s| :: IsSpace(s[i])
    ensures |r| > 0 ==> !IsSpace(r[|r| - 1])
    decreases |s|
  {
    if |s| > 0 && IsSpace(s[|s| - 1]) then TrimEnd(s[..|s| - 1]) else s
  }

  /** How many leading whitespace characters `strip()` removes. */
  function StripOffset(s: string): nat
    ensures StripOffset(s) <= |s|
  {
    |s| - |TrimStart(s)|
  }

  /** Python's argument-less `s.strip()`: the slice of `s` left after removing
      whitespace at both ends. */
  function Strip(s: string): (r: string)
    ensures StripOffset(s) + |r| <= |s|
    ensures r == s[StripOffset(s)..StripOffset(s) + |r|]
    ensures forall i | 0 <= i < StripOffset(s) :: IsSpace(s[i])
    ensures forall i | StripOffset(s) + |r| <= i < |s| :: IsSpace(s[i])
    ensures |r| > 0 ==> !IsSpace(r[0]) && !IsSpace(r[|r| - 1])
  {
    var t := TrimStart(s);
    var r := TrimEnd(t);
    PrefixOfSuffix(s, t, r);
    r
  }

  /** A prefix of a suffix is a slice. */
  lemma PrefixOfSuffix(s: string, t: string, r: string)
    requires |t| <= |s| && t == s[|s| - |t|..]
    requires |r| <= |t| && r == t[..|r|]
    ensures r == s[|s| - |t|..|s| - |t| + |r|]
  {
  }

  /** A string without whitespace at either end is its own strip. */
  lemma StripOfTrimmed(s: string)
    requires |s| > 0 ==> !IsSpace(s[0]) && !IsSpace(s[|s| - 1])
    ensures Strip(s) == s
  {
    assert TrimStart(s) == s;
    assert TrimEnd(s) == s;
  }

  /** Leading whitespace does not change the strip. */
  lemma StripAfterSpace(c: char, s: string)
    requires IsSpace(c)
    ensures Strip([c] + s) == Strip(s)
  {
    assert ([c] + s)[1..] == s;
    assert TrimStart([c] + s) == TrimStart(s);
  }

  predicate Blank(s: string) {
    forall i | 0 <= i < |s| :: IsSpace(s[i])
  }

  /** `s.strip()` is empty exactly when `s` is all whitespace. */
  lemma StripEmptyIffBlank(s: string)
    ensures Strip(s) == "" <==> Blank(s)
  {
    var r := Strip(s);
    if r != "" {
      assert !IsSpace(s[StripOffset(s)]);
    }
  }

  // ---------------------------------------------------------------------------
  // Whitespace collapse and word splitting
  // ---------------------------------------------------------------------------

  predicate SpacePair(s: string, i: int)
    requires 0 <= i < |s| - 1
  {
    IsSpace(s[i]) && IsSpace(s[i + 1])
  }

  /** The shape `re.sub(r'\s+', ' ', ...)` leaves: the only whitespace is a
      plain space and no two whitespace characters are adjacent. */
  predicate Collapsed(s: string) {
    && (forall i | 0 <= i < |s| :: IsSpace(s[i]) ==> s[i] == ' ')
    && (forall i | 0 <= i < |s| - 1 :: !SpacePair(s, i))
  }

  /** Any slice of a collapsed string is collapsed. */
  lemma CollapsedSlice(s: string, a: nat, b: nat)
    requires a <= b <= |s|
    requires Collapsed(s)
    ensures Collapsed(s[a..b])
  {
    var t := s[a..b];
    forall i | 0 <= i < |t| - 1
      ensures !SpacePair(t, i)
    {
      assert !SpacePair(s, a + i);
    }
  }

  /** The characters of `s` that are not whitespace, in order. */
  function NonSpace(s: string): string {
    if |s| == 0 then ""
    else if IsSpace(s[0]) then NonSpace(s[1..])
    else [s[0]] + NonSpace(s[1..])
  }

  lemma NonSpaceAppend(a: string, b: string)
    ensures NonSpace(a + b) == NonSpace(a) + NonSpace(b)
  {
    if |a| > 0 {
      var ab := a + b;
      assert ab[0] == a[0];
      assert ab[1..] == a[1..] + b;
      NonSpaceAppend(a[1..], b);
      if IsSpace(a[0]) {
        assert NonSpace(ab) == NonSpace(ab[1..]);
      } else {
        assert NonSpace(ab) == [a[0]] + NonSpace(ab[1..]);
      }
    } else {
      assert a + b == b;
    }
  }

  lemma {:induction false} NonSpaceBlank(s: string)
    requires Blank(s)
    ensures NonSpace(s) == ""
  {
    if |s| > 0 {
      NonSpaceBlank(s[1..]);
    }
  }

  /** Python's `re.sub(r'\s+', ' ', s)`: every maximal run of whitespace
      becomes a single space. */
  function Collapse(s: string): (r: string)
    ensures Collapsed(r)
    ensures |r| == 0 <==> |s| == 0
    ensures |r| > 0 ==> (IsSpace(r[0]) <==> IsSpace(s[0]))
    decreases |s|
  {
    if |s| == 0 then ""
    else if IsSpace(s[0]) then
      var t := TrimStart(s);
      var c := Collapse(t);
      var r := " " + c;
      assert forall i | 1 <= i < |r| :: r[i] == c[i - 1];
      assert forall i | 0 <= i < |r| - 1 :: !SpacePair(r, i) by {
        forall i | 0 <= i < |r| - 1
          ensures !SpacePair(r, i)
        {
          if i > 0 {
            assert !SpacePair(c, i - 1);
          }
        }
      }
      r
    else
      var c := Collapse(s[1..]);
      var r := [s[0]] + c;
      assert forall i | 1 <= i < |r| :: r[i] == c[i - 1];
      assert forall i | 0 <= i < |r| - 1 :: !SpacePair(r, i) by {
        forall i | 0 <= i < |r| - 1
          ensures !SpacePair(r, i)
        {
          if i > 0 {
            assert !SpacePair(c, i - 1);
          }
        }
      }
      r
  }

  /** Collapsing deletes and rewrites only whitespace: the visible text is unchanged. */
  lemma {:induction false} CollapseKeepsText(s: string)
    ensures NonSpace(Collapse(s)) == NonSpace(s)
    decreases |s|
  {
    if |s| == 0 {
    } else if IsSpace(s[0]) {
      var t := TrimStart(s);
      var k := |s| - |t|;
      assert s == s[..k] + t;
      NonSpaceAppend(s[..k], t);
      NonSpaceBlank(s[..k]);
      CollapseKeepsText(t);
      NonSpaceAppend(" ", Collapse(t));
    } else {
      CollapseKeepsText(s[1..]);
      NonSpaceAppend([s[0]], Collapse(s[1..]));
    }
  }

  /** A collapsed string is a fixed point: collapsing twice is collapsing once. */
  lemma {:induction false} CollapseOfCollapsed(s: string)
    requires Collapsed(s)
    ensures Collapse(s) == s
    decreases |s|
  {
    if |s| > 0 {
      CollapsedSlice(s, 1, |s|);
      assert s[1..|s|] == s[1..];
      if IsSpace(s[0]) {
        if |s| > 1 {
          assert !SpacePair(s, 0);
        }
        assert TrimStart(s) == s[1..];
      }
      CollapseOfCollapsed(s[1..]);
    }
  }

  lemma CollapseIdempotent(s: string)
    ensures Collapse(Collapse(s)) == Collapse(s)
  {
    CollapseOfCollapsed(Collapse(s));
  }

  /** The longest prefix of `s` free of whitespace. */
  function TakeWord(s: string): (r: string)
    ensures |r| <= |s| && r == s[..|r|]
    ensures forall i | 0 <= i < |r| :: !IsSpace(r[i])
    ensures |r| < |s| ==> IsSpace(s[|r|])
    ensures |s| > 0 && !IsSpace(s[0]) ==> |r| > 0
    decreases |s|
  {
    if |s| == 0 || IsSpace(s[0]) then "" else [s[0]] + TakeWord(s[1..])
  }

  /** A word of `split()`: non-empty and free of whitespace. */
  predicate Solid(w: string) {
    |w| > 0 && forall i | 0 <= i < |w| :: !IsSpace(w[i])
  }

  /** Python's argument-less `s.split()`: the maximal whitespace-free runs. */
  function Words(s: string): (r: seq<string>)
    ensures forall k | 0 <= k < |r| :: Solid(r[k])
    decreases |s|
  {
    var t := TrimStart(s);
    if |t| == 0 then []
    else
      var w := TakeWord(t);
      [w] + Words(t[|w|..])
  }

  function Concat(parts: seq<string>): string {
    if |parts| == 0 then "" else parts[0] + Concat(parts[1..])
  }

  /** The words of `s` spell out exactly its non-whitespace characters. */
  lemma {:induction false} WordsSpellText(s: string)
    ensures Concat(Words(s)) == NonSpace(s)
    decreases |s|
  {
    var t := TrimStart(s);
    NonSpaceAfterBlank(s, |s| - |t|);
    if |t| > 0 {
      var w, rest := WordsStep(s);
      WordsSpellText(rest);
      ConcatCons(w, Words(rest));
    }
  }

  /** One step of `split()`: skip leading whitespace, cut off one word. */
  lemma WordsStep(s: string) returns (w: string, rest: string)
    requires |TrimStart(s)| > 0
    ensures |rest| < |s|
    ensures Words(s) == [w] + Words(rest)
    ensures NonSpace(s) == w + NonSpace(rest)
  {
    var t := TrimStart(s);
    w := TakeWord(t);
    rest := t[|w|..];
    CutInTwo(t, |w|);
    NonSpaceAfterBlank(s, |s| - |t|);
    NonSpaceAppend(w, rest);
    NonSpaceOfSolid(w);
  }

  lemma CutInTwo(s: string, k: nat)
    requires k <= |s|
    ensures s[..k] + s[k..] == s
  {
  }

  lemma ConcatCons(w: string, ws: seq<string>)
    ensures Concat([w] + ws) == w + Concat(ws)
  {
    assert ([w] + ws)[1..] == ws;
  }

  lemma NonSpaceAfterBlank(s: string, k: nat)
    requires k <= |s|
    requires forall i | 0 <= i < k :: IsSpace(s[i])
    ensures NonSpace(s) == NonSpace(s[k..])
  {
    assert s == s[..k] + s[k..];
    NonSpaceAppend(s[..k], s[k..]);
    NonSpaceBlank(s[..k]);
  }

  lemma {:induction false} NonSpaceOfSolid(w: string)
    requires Solid(w) || |w| == 0
    ensures NonSpace(w) == w
  {
    if |w| > 0 {
      assert forall i | 0 <= i < |w| - 1 :: w[1..][i] == w[i + 1];
      NonSpaceOfSolid(w[1..]);
    }
  }

  // ---------------------------------------------------------------------------
  // Filtering
  // ---------------------------------------------------------------------------

  predicate IsSubsequence<T(==)>(a: seq<T>, b: seq<T>)
    decreases |b|
  {
    || |a| == 0
    || (|b| > 0 && if a[0] == b[0] then IsSubsequence(a[1..], b[1..]) else IsSubsequence(a, b[1..]))
  }

  /** The elements of `xs` whose flag is set, in order. */
  function Keep<T>(xs: seq<T>, flags: seq<bool>): (r: seq<T>)
    requires |flags| == |xs|
    ensures |r| <= |xs|
  {
    if |xs| == 0 then []
    else (if flags[0] then [xs[0]] else []) + Keep(xs[1..], flags[1..])
  }

  /** `Keep` selects a subsequence, and on distinct elements an element is
      selected exactly when its flag is set. */
  lemma {:induction false} KeepSelects<T>(xs: seq<T>, flags: seq<bool>)
    requires |flags| == |xs|
    requires forall i, j | 0 <= i < j < |xs| :: xs[i] != xs[j]
    ensures IsSubsequence(Keep(xs, flags), xs)
    ensures forall i | 0 <= i < |xs| :: xs[i] in Keep(xs, flags) <==> flags[i]
    ensures forall x | x in Keep(xs, flags) :: x in xs
  {
    if |xs| > 0 {
      var tail := Keep(xs[1..], flags[1..]);
      KeepSelects(xs[1..], flags[1..]);
      assert xs[0] !in xs[1..] by {
        forall i | 0 <= i < |xs| - 1
          ensures xs[1..][i] != xs[0]
        {
          assert xs[1..][i] == xs[i + 1];
        }
      }
      assert xs[0] !in tail;
      forall i | 1 <= i < |xs|
        ensures xs[i] in Keep(xs, flags) <==> flags[i]
      {
        assert xs[1..][i - 1] == xs[i];
      }
      if flags[0] {
        assert Keep(xs, flags) == [xs[0]] + tail;
        assert ([xs[0]] + tail)[1..] == tail;
      } else {
        assert Keep(xs, flags) == tail;
        if |tail| > 0 {
          assert tail[0] in tail;
          assert tail[0] != xs[0];
        }
      }
    }
  }
}
