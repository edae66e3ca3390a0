/** The filename parser of the scraper: `sanitize_filename`,
    `extract_code_and_description` and `is_archive`, as pure string functions. */
module Parser {
  import opened Text

  /** Characters the first substitution of `sanitize_filename` turns into a space. */
  predicate IsDotOrDash(c: char) {
    c == '.' || c == '-'
  }

  /** Characters the second substitution of `sanitize_filename` deletes:
      `< > : " / \ | ? *`, newline and carriage return. */
  predicate IsForbidden(c: char) {
    c == '<' || c == '>' || c == ':' || c == '"' || c == '/' || c == '\\'
    || c == '|' || c == '?' || c == '*' || c == '\n' || c == '\r'
  }

  /** A character that can never appear in a sanitized name. */
  predicate IsUnsafe(c: char) {
    IsDotOrDash(c) || IsForbidden(c)
  }

  /** `re.sub(r'[.-]', ' ', name)`: no dot or dash is left, and every other
      character stays in its place. */
  function DotsToSpaces(s: string): (r: string)
    ensures |r| == |s|
    ensures forall j :: 0 <= j < |r| ==> !IsDotOrDash(r[j])
    ensures forall j :: 0 <= j < |s| && !IsDotOrDash(s[j]) ==> r[j] == s[j]
    ensures forall j :: 0 <= j < |s| && IsDotOrDash(s[j]) ==> r[j] == ' '
  {
    seq(|s|, j requires 0 <= j < |s| => if IsDotOrDash(s[j]) then ' ' else s[j])
  }

  /** `re.sub(r'[<>:"/\\|?*\n\r]', '', name)`: the forbidden characters go, the
      others stay in order. */
  function DropForbidden(s: string): (r: string)
    ensures |r| <= |s|
    ensures forall c :: c in r <==> c in s && !IsForbidden(c)
  {
    if s == [] then []
    else
      var rest := DropForbidden(s[1..]);
      assert forall c :: c in s <==> c == s[0] || c in s[1..];
      if IsForbidden(s[0]) then rest else [s[0]] + rest
  }

  /** Dropping forbidden characters from a string that has none leaves it as it is. */
  lemma {:induction false} DropForbiddenNone(s: string)
    requires forall j :: 0 <= j < |s| ==> !IsForbidden(s[j])
    ensures DropForbidden(s) == s
  {
    if s != [] {
      DropForbiddenNone(s[1..]);
    }
  }

  /** The deletion works character by character: on a concatenation it is the
      deletion on each part, one after the other. */
  lemma {:induction false} DropForbiddenConcat(a: string, b: string)
    ensures DropForbidden(a + b) == DropForbidden(a) + DropForbidden(b)
    decreases |a|
  {
    if a == [] {
      assert a + b == b;
    } else {
      assert (a + b)[1..] == a[1..] + b;
      DropForbiddenConcat(a[1..], b);
    }
  }

  /** On one character the deletion removes it exactly when it is forbidden. */
  lemma DropForbiddenChar(c: char)
    ensures DropForbidden([c]) == if IsForbidden(c) then [] else [c]
  {
    assert [c][1..] == [];
  }

  /** `sanitize_filename`: dots and dashes become spaces, forbidden characters are
      deleted, surrounding whitespace is stripped. The result holds no unsafe
      character, has no surrounding whitespace, and every character in it came
      from the input or is a space. */
  function SanitizeFilename(name: string): (r: string)
    ensures forall j :: 0 <= j < |r| ==> !IsUnsafe(r[j])
    ensures Trimmed(r)
    ensures |r| <= |name|
    ensures forall c :: c in r ==> c in name || c == ' '
  {
    var d := DotsToSpaces(name);
    assert forall c :: c in d ==> !IsDotOrDash(c) && (c in name || c == ' ');
    var f := DropForbidden(d);
    var r := Strip(f);
    SliceChars(f, r);
    r
  }

  /** Every character of what `Strip` returns was in its argument. */
  lemma SliceChars(f: string, r: string)
    requires r == Strip(f)
    ensures forall c :: c in r ==> c in f
  {
    var i :| StripsTo(f, i, r);
    forall c | c in r ensures c in f {
      var j :| 0 <= j < |r| && r[j] == c;
      assert f[i + j] == c;
    }
  }

  /** A name is left unchanged by `sanitize_filename` exactly when it has no unsafe
      character and no surrounding whitespace. */
  lemma SanitizeFixpoint(name: string)
    ensures SanitizeFilename(name) == name <==>
              Trimmed(name) && forall j :: 0 <= j < |name| ==> !IsUnsafe(name[j])
  {
    if Trimmed(name) && forall j :: 0 <= j < |name| ==> !IsUnsafe(name[j]) {
      assert DotsToSpaces(name) == name;
      DropForbiddenNone(name);
      StripTrimmed(name);
    }
  }

  /** Sanitizing twice is the same as sanitizing once. */
  lemma SanitizeIdempotent(name: string)
    ensures SanitizeFilename(SanitizeFilename(name)) == SanitizeFilename(name)
  {
    SanitizeFixpoint(SanitizeFilename(name));
  }

  /** `re.sub(r'#.*', '', s, flags=re.DOTALL)`: the longest prefix of `s` without
      a `#`, so the first `#` and everything after it are gone. */
  function CutComment(s: string): (r: string)
    ensures '#' !in r
    ensures r <= s
    ensures |r| < |s| ==> s[|r|] == '#'
  {
    if s == [] || s[0] == '#' then [] else [s[0]] + CutComment(s[1..])
  }

  /** The characters of `s` that are not whitespace, in order. */
  function NonSpaces(s: string): string {
    if s == [] then []
    else (if IsSpace(s[0]) then [] else [s[0]]) + NonSpaces(s[1..])
  }

  /** Leading whitespace contributes nothing to `NonSpaces`. */
  lemma {:induction false} NonSpacesSkip(s: string, k: nat)
    requires k <= |s| && forall j :: 0 <= j < k ==> IsSpace(s[j])
    ensures NonSpaces(s[k..]) == NonSpaces(s)
  {
    if k > 0 {
      NonSpacesSkip(s[1..], k - 1);
      assert s[1..][k - 1..] == s[k..];
    }
  }

  /** `re.sub(r'\s+', ' ', s)`: each run of whitespace becomes one space. The
      result holds the same non-whitespace characters in the same order, its only
      whitespace character is the space, no two spaces are adjacent, and it starts
      with whitespace exactly when `s` does. */
  function CollapseSpaces(s: string): (r: string)
    ensures NonSpaces(r) == NonSpaces(s)
    ensures forall j :: 0 <= j < |r| && IsSpace(r[j]) ==> r[j] == ' '
    ensures forall j :: 0 <= j < |r| - 1 ==> !(IsSpace(r[j]) && IsSpace(r[j + 1]))
    ensures (r == []) == (s == [])
    ensures s != [] ==> (IsSpace(r[0]) <==> IsSpace(s[0]))
    ensures forall c :: c in r ==> c in s || c == ' '
    decreases |s|
  {
    if s == [] then []
    else if IsSpace(s[0]) then
      var k := LeadingSpaces(s);
      var rest := CollapseSpaces(s[k..]);
      NonSpacesSkip(s, k);
      assert ([' '] + rest)[1..] == rest;
      assert forall c :: c in s[k..] ==> c in s;
      [' '] + rest
    else
      var rest := CollapseSpaces(s[1..]);
      assert ([s[0]] + rest)[1..] == rest;
      [s[0]] + rest
  }

  /** A whitespace run between a part that does not end in whitespace and one
      that does not start with it becomes a single space standing just there:
      the parts on either side are collapsed on their own. */
  lemma CollapseGap(a: string, g: string, b: string)
    requires a == [] || !IsSpace(a[|a| - 1])
    requires g != [] && AllSpace(g)
    requires b == [] || !IsSpace(b[0])
    ensures CollapseSpaces(a + g + b) == CollapseSpaces(a) + " " + CollapseSpaces(b)
  {
    Regroup(a, g, b);
    CollapseSplit(a, g + b);
    CollapseLead(g, b);
    Regroup(CollapseSpaces(a), " ", CollapseSpaces(b));
  }

  /** Concatenation regrouped, stated once so that the proofs above need not
      rediscover it. */
  lemma Regroup(p: string, q: string, r: string)
    ensures p + (q + r) == p + q + r
  {
  }

  /** Collapsing works part by part once the first part does not end in
      whitespace: no run crosses the boundary. */
  lemma {:induction false} CollapseSplit(x: string, y: string)
    requires x == [] || !IsSpace(x[|x| - 1])
    ensures CollapseSpaces(x + y) == CollapseSpaces(x) + CollapseSpaces(y)
    decreases |x|
  {
    if x == [] {
      assert x + y == y;
    } else if !IsSpace(x[0]) {
      CollapseSplit(x[1..], y);
      SplitAfterWord(x, y);
    } else {
      var k := LeadingSpaces(x);
      CollapseSplit(x[k..], y);
      SplitAfterRun(x, y, k);
    }
  }

  /** One step of `CollapseSplit` past a leading non-whitespace character. */
  lemma SplitAfterWord(x: string, y: string)
    requires x != [] && !IsSpace(x[0])
    requires CollapseSpaces(x[1..] + y) == CollapseSpaces(x[1..]) + CollapseSpaces(y)
    ensures CollapseSpaces(x + y) == CollapseSpaces(x) + CollapseSpaces(y)
  {
    var s, t := x + y, x[1..];
    DropOne(x, y);
    CollapseWord(s);
    CollapseWord(x);
    calc {
      CollapseSpaces(s);
      [x[0]] + CollapseSpaces(t + y);
      [x[0]] + (CollapseSpaces(t) + CollapseSpaces(y));
      { Regroup([x[0]], CollapseSpaces(t), CollapseSpaces(y)); }
      [x[0]] + CollapseSpaces(t) + CollapseSpaces(y);
      CollapseSpaces(x) + CollapseSpaces(y);
    }
  }

  /** Dropping the first character of `x + y` drops it from `x`. */
  lemma DropOne(x: string, y: string)
    requires x != []
    ensures (x + y)[0] == x[0] && (x + y)[1..] == x[1..] + y
  {
  }

  /** One step of `CollapseSplit` past a leading whitespace run of length `k`. */
  lemma SplitAfterRun(x: string, y: string, k: nat)
    requires x != [] && !IsSpace(x[|x| - 1])
    requires 0 < k <= |x| && forall j :: 0 <= j < k ==> IsSpace(x[j])
    requires k == |x| || !IsSpace(x[k])
    requires CollapseSpaces(x[k..] + y) == CollapseSpaces(x[k..]) + CollapseSpaces(y)
    ensures CollapseSpaces(x + y) == CollapseSpaces(x) + CollapseSpaces(y)
  {
    SpaceRunInside(x, y, k);
    var s, t := x + y, x[k..];
    assert s[k..] == t + y;
    CollapseRun(s, k);
    CollapseRun(x, k);
    Regroup(" ", CollapseSpaces(t), CollapseSpaces(y));
  }

  /** The leading whitespace run of `x` is also the leading run of `x + y` when `x`
      ends in a non-whitespace character. */
  lemma SpaceRunInside(x: string, y: string, k: nat)
    requires x != [] && !IsSpace(x[|x| - 1])
    requires 0 < k <= |x| && forall j :: 0 <= j < k ==> IsSpace(x[j])
    requires k == |x| || !IsSpace(x[k])
    ensures k < |x|
    ensures forall j :: 0 <= j < k ==> IsSpace((x + y)[j])
    ensures !IsSpace((x + y)[k])
  {
  }

  /** A leading whitespace run becomes one leading space. */
  lemma CollapseLead(g: string, b: string)
    requires g != [] && AllSpace(g)
    requires b == [] || !IsSpace(b[0])
    ensures CollapseSpaces(g + b) == " " + CollapseSpaces(b)
  {
    var s := g + b;
    assert s[|g|..] == b;
    forall j | 0 <= j < |g|
      ensures IsSpace(s[j])
    {
      assert s[j] == g[j];
    }
    CollapseRun(s, |g|);
  }

  /** A string that starts with a non-whitespace character keeps it in front. */
  lemma CollapseWord(s: string)
    requires s != [] && !IsSpace(s[0])
    ensures CollapseSpaces(s) == [s[0]] + CollapseSpaces(s[1..])
  {
  }

  /** A string that starts with a whitespace run of length `k` starts with one
      space instead. */
  lemma CollapseRun(s: string, k: nat)
    requires 0 < k <= |s| && forall j :: 0 <= j < k ==> IsSpace(s[j])
    requires k == |s| || !IsSpace(s[k])
    ensures CollapseSpaces(s) == " " + CollapseSpaces(s[k..])
  {
    assert LeadingSpaces(s) == k;
  }

  /** The match of `^([^\s]+)\s+([\s\S]+)$` against `s`, as the pair `(i, k)` with
      group 1 = `s[..i]` and group 2 = `s[k..]`. When it matches, group 1 is a
      non-empty whitespace-free prefix, the gap is whitespace and as long as it can
      be while leaving group 2 non-empty; when it does not, no split of that shape
      exists. */
  function TokenMatch(s: string): (m: Option<(nat, nat)>)
    ensures m.Some? ==> 0 < m.value.0 < m.value.1 < |s|
    ensures m.Some? ==> NoSpace(s[..m.value.0]) && AllSpace(s[m.value.0..m.value.1])
    ensures m.Some? ==> m.value.1 == |s| - 1 || !IsSpace(s[m.value.1])
    ensures m.None? ==>
              forall i, k :: 0 < i < k < |s| ==> !(NoSpace(s[..i]) && AllSpace(s[i..k]))
  {
    var i := TokenLength(s);
    if i == 0 || |s| - i < 2 then
      NoSplit(s);
      None
    else
      var n := LeadingSpaces(s[i..]);
      var k := i + n;
      if k < |s| then Some((i, k)) else Some((i, k - 1))
  }

  /** A whitespace-free prefix never reaches past the leading token. */
  lemma TokenMaximal(s: string)
    ensures forall i :: 0 <= i <= |s| && NoSpace(s[..i]) ==> i <= TokenLength(s)
  {
    var n := TokenLength(s);
    forall i | n < i <= |s| ensures !NoSpace(s[..i]) {
      assert s[..i][n] == s[n];
    }
  }

  /** When the leading token is empty or leaves fewer than two characters after it,
      the pattern has no split at all. */
  lemma NoSplit(s: string)
    requires TokenLength(s) == 0 || |s| - TokenLength(s) < 2
    ensures forall i, k :: 0 < i < k < |s| ==> !(NoSpace(s[..i]) && AllSpace(s[i..k]))
  {
    var n := TokenLength(s);
    TokenMaximal(s);
    forall i, k | 0 < i < k < |s| && NoSpace(s[..i]) ensures !AllSpace(s[i..k]) {
      if i < n {
        assert s[i..k][0] == s[i];
      }
    }
  }

  /** Over a stripped name the pattern fails exactly when the name holds no
      whitespace, and group 2 then starts with a non-whitespace character. */
  lemma TrimmedMatch(s: string)
    requires Trimmed(s)
    ensures TokenMatch(s).None? <==> NoSpace(s)
    ensures TokenMatch(s).Some? ==> !IsSpace(s[TokenMatch(s).value.1])
    ensures TokenMatch(s).Some? ==> IsSpace(s[TokenMatch(s).value.0])
  {
    TokenMaximal(s);
    assert NoSpace(s) ==> s[..|s|] == s;
    if TokenMatch(s).Some? {
      var (i, k) := TokenMatch(s).value;
      assert s[i..k][0] == s[i];
    }
  }

  /** What `extract_code_and_description` returns: the code (absent when the name
      does not split) and the cleaned description. */
  datatype Parsed = Parsed(code: Option<string>, description: string)

  /** `extract_code_and_description`. The name is stripped; it yields a code exactly
      when the stripped name holds whitespace, and the code is then its non-empty
      leading whitespace-free run, followed by whitespace. Without a code the
      description is the sanitized stripped name; with one it holds no `#`. */
  function ExtractCodeAndDescription(fileName: string): (r: Parsed)
    ensures r.code.None? <==> NoSpace(Strip(fileName))
    ensures r.code.None? ==> r.description == SanitizeFilename(Strip(fileName))
    ensures r.code.Some? ==>
              var s := Strip(fileName);
              0 < |r.code.value| < |s| && r.code.value == s[..|r.code.value|]
              && NoSpace(r.code.value) && IsSpace(s[|r.code.value|])
    ensures r.code.Some? ==> '#' !in r.description
  {
    var s := Strip(fileName);
    TrimmedMatch(s);
    match TokenMatch(s)
    case None => Parsed(None, SanitizeFilename(s))
    case Some((i, k)) => Parsed(Some(s[..i]), CleanDescription(s[k..]))
  }

  /** The description made of the text after the code: stripped, cut at its
      first `#`, stripped again, its whitespace runs collapsed, and sanitized. It
      holds no `#`. */
  function CleanDescription(rest: string): (d: string)
    ensures '#' !in d
  {
    var cut := CutComment(Strip(rest));
    var clean := Strip(cut);
    SliceChars(cut, clean);
    SanitizeFilename(CollapseSpaces(clean))
  }

  /** The leading token of a string that starts with `c` followed by whitespace is `c`. */
  lemma TokenLengthOf(s: string, c: string)
    requires |c| < |s| && c == s[..|c|] && NoSpace(c) && IsSpace(s[|c|])
    ensures TokenLength(s) == |c|
  {
    TokenMaximal(s);
  }

  /** `CutComment` stops at the first `#`. */
  lemma CutCommentAt(t: string, q: nat)
    requires q < |t| && t[q] == '#' && '#' !in t[..q]
    ensures CutComment(t) == t[..q]
  {
    var r := CutComment(t);
    assert forall m :: 0 <= m < q ==> t[m] == t[..q][m];
  }

  /** A string that starts and holds a non-whitespace character at `p` keeps both
      when stripped. */
  lemma StripKeeps(x: string, p: nat)
    requires p < |x| && !IsSpace(x[0]) && !IsSpace(x[p])
    ensures p < |Strip(x)| && Strip(x) == x[..|Strip(x)|]
  {
    var s := Strip(x);
    var a :| StripsTo(x, a, s);
  }

  /** Over a stripped string that starts with the token `c`, then whitespace, and
      holds a non-whitespace character at `p`, the pattern matches with group 1 = `c`
      and group 2 starting after the whitespace run, at or before `p`. */
  lemma MatchAfterToken(s: string, c: string, p: nat)
    requires Trimmed(s) && c != [] && NoSpace(c) && |c| < p < |s|
    requires s[..|c|] == c && IsSpace(s[|c|]) && !IsSpace(s[p])
    ensures TokenMatch(s).Some?
    ensures TokenMatch(s).value.0 == |c| && |c| < TokenMatch(s).value.1 <= p
    ensures forall m :: |c| <= m < TokenMatch(s).value.1 ==> IsSpace(s[m])
    ensures !IsSpace(s[TokenMatch(s).value.1])
  {
    TokenLengthOf(s, c);
    TrimmedMatch(s);
    var i := |c|;
    var n := LeadingSpaces(s[i..]);
    assert s[i..][p - i] == s[p];
    assert forall m :: i <= m < i + n ==> s[m] == s[i..][m - i];
  }

  /** `extract_code_and_description` once the pattern has matched with groups
      `s[..i]` and `s[k..]` of the stripped name `s`. */
  lemma ExtractMatched(fileName: string, k: nat, code: string, clean: string)
    requires TokenMatch(Strip(fileName)) == Some((|code|, k))
    requires Strip(fileName)[..|code|] == code
    requires Strip(CutComment(Strip(Strip(fileName)[k..]))) == clean
    ensures ExtractCodeAndDescription(fileName)
            == Parsed(Some(code), SanitizeFilename(CollapseSpaces(clean)))
  {
  }

  /** The comment-free part of a group 2 that reads `d[j..] + "#" + ...`, stripped,
      is `d` stripped, when `d` holds no `#` and only whitespace before `j`. */
  lemma CommentFreePart(t: string, q: nat, d: string, j: nat)
    requires Trimmed(t) && q < |t| && t[q] == '#'
    requires j <= |d| && t[..q] == d[j..] && '#' !in d
    requires forall m :: 0 <= m < j ==> IsSpace(d[m])
    ensures Strip(CutComment(Strip(t))) == Strip(d)
  {
    StripTrimmed(t);
    CutCommentAt(t, q);
    StripSkipLeading(d, j);
  }

  /** Whatever follows the first `#` after the code has no effect: the description
      of `w + code + [g] + d + "#" + rest` depends on `d` alone, for any leading
      whitespace `w` and any whitespace character `g` after the code. */
  lemma CommentIgnored(w: string, code: string, g: char, d: string, rest: string)
    requires AllSpace(w) && IsSpace(g) && code != [] && NoSpace(code) && '#' !in d
    ensures ExtractCodeAndDescription(w + code + [g] + d + "#" + rest)
            == Parsed(Some(code), SanitizeFilename(CollapseSpaces(Strip(d))))
  {
    var x := w + code + [g] + d + "#" + rest;
    var y := code + [g] + d + "#" + rest;
    assert x == w + y;
    var k := CommentedParts(code, g, d, rest);
    StripLeadingSpace(w, x, y);
    ExtractMatched(x, k, code, Strip(d));
  }

  /** Whitespace before a name does not change its stripped form. */
  lemma StripLeadingSpace(w: string, x: string, y: string)
    requires AllSpace(w) && x == w + y
    ensures Strip(x) == Strip(y)
  {
    assert x[|w|..] == y;
    StripSkipLeading(x, |w|);
  }

  /** The steps of `ExtractCodeAndDescription` on a commented name: the token
      match ends at `k`, and the comment is cut from what follows. */
  lemma CommentedParts(code: string, g: char, d: string, rest: string) returns (k: nat)
    requires IsSpace(g) && code != [] && NoSpace(code) && '#' !in d
    ensures var s := Strip(code + [g] + d + "#" + rest);
            TokenMatch(s) == Some((|code|, k)) && s[..|code|] == code
            && Strip(CutComment(Strip(s[k..]))) == Strip(d)
  {
    var x := code + [g] + d + "#" + rest;
    var p := |code| + 1 + |d|;
    assert x[0] == code[0] && x[p] == '#';
    StripKeeps(x, p);
    var s := Strip(x);
    assert s[..|code|] == code && s[|code|] == g && s[p] == '#';
    assert s[|code| + 1..p] == d;
    k := CommentedStripped(s, code, g, d, p);
  }

  /** The same steps on the stripped name `s`: the code, one whitespace character
      `g`, the text `d` and a `#` at `p`. */
  lemma CommentedStripped(s: string, code: string, g: char, d: string, p: nat) returns (k: nat)
    requires Trimmed(s) && IsSpace(g) && code != [] && NoSpace(code) && '#' !in d
    requires p == |code| + 1 + |d| && p < |s|
    requires s[..|code|] == code && s[|code|] == g && s[p] == '#' && s[|code| + 1..p] == d
    ensures TokenMatch(s) == Some((|code|, k))
    ensures Strip(CutComment(Strip(s[k..]))) == Strip(d)
  {
    MatchAfterToken(s, code, p);
    k := TokenMatch(s).value.1;
    var j := k - |code| - 1;
    assert s[k..][..p - k] == d[j..];
    assert forall m :: 0 <= m < j ==> d[m] == s[m + |code| + 1];
    CommentFreePart(s[k..], p - k, d, j);
  }

  /** Without a `#` after the code, the description is the rest of the name with
      whitespace runs collapsed, then sanitized. */
  lemma NoComment(code: string, d: string)
    requires code != [] && NoSpace(code) && '#' !in d && d != [] && Trimmed(d)
    ensures ExtractCodeAndDescription(code + " " + d)
            == Parsed(Some(code), SanitizeFilename(CollapseSpaces(d)))
  {
    var x := code + " " + d;
    NoCommentMatch(x, code, d);
    StripTrimmed(d);
    CutCommentNone(d);
    ExtractMatched(x, |code| + 1, code, d);
  }

  /** On `code + " " + d` with `d` trimmed, the name is its own strip and the
      pattern matches with group 2 = `d`. */
  lemma NoCommentMatch(x: string, code: string, d: string)
    requires code != [] && NoSpace(code) && d != [] && Trimmed(d) && x == code + " " + d
    ensures Strip(x) == x && x[..|code|] == code && x[|code| + 1..] == d
    ensures TokenMatch(x) == Some((|code|, |code| + 1))
  {
    var p := |code| + 1;
    assert x[0] == code[0] && x[p] == d[0] && x[|x| - 1] == d[|d| - 1];
    StripTrimmed(x);
    assert x[..|code|] == code && x[|code|] == ' ';
    MatchAfterToken(x, code, p);
    assert x[p..] == d;
  }

  /** `CutComment` leaves a string without `#` as it is. */
  lemma CutCommentNone(s: string)
    requires '#' !in s
    ensures CutComment(s) == s
  {
  }

  /** `CollapseSpaces` leaves a string as it is when its only whitespace is single
      spaces. */
  lemma {:induction false} CollapseFixpoint(s: string)
    requires forall j :: 0 <= j < |s| && IsSpace(s[j]) ==> s[j] == ' '
    requires forall j :: 0 <= j < |s| - 1 ==> !(IsSpace(s[j]) && IsSpace(s[j + 1]))
    ensures CollapseSpaces(s) == s
  {
    if s != [] {
      CollapseFixpoint(s[1..]);
      if IsSpace(s[0]) {
        assert LeadingSpaces(s) == 1 by {
          assert |s| == 1 || !IsSpace(s[1]);
        }
      }
    }
  }

  /** A file named `CAT001 funny cats.jpg` yields the code `CAT001` and the
      description `funny cats jpg`: the dot of the extension becomes a space. */
  lemma ExampleWithExtension()
    ensures ExtractCodeAndDescription("CAT001 funny cats.jpg")
            == Parsed(Some("CAT001"), "funny cats jpg")
  {
    var code, d := "CAT001", "funny cats.jpg";
    assert code + " " + d == "CAT001 funny cats.jpg";
    assert NoSpace(code);
    FunnyCatsWords();
    FunnyCatsDots();
    PlainDescription(code, d);
  }

  /** The rest of that name is words separated by single spaces, with no `#` and
      no forbidden character. */
  lemma FunnyCatsWords()
    ensures var d := "funny cats.jpg";
            (forall j :: 0 <= j < |d| && IsSpace(d[j]) ==> d[j] == ' ')
            && (forall j :: 0 <= j < |d| - 1 ==> !(IsSpace(d[j]) && IsSpace(d[j + 1])))
            && (forall j :: 0 <= j < |d| ==> !IsForbidden(d[j]))
            && '#' !in d
  {
    var d := "funny cats.jpg";
    assert forall j :: 0 <= j < |d| && IsSpace(d[j]) ==> j == 5;
    assert forall j :: 0 <= j < |d| ==> !IsForbidden(d[j]);
  }

  /** Its dot becomes a space, and the result has no surrounding whitespace. */
  lemma FunnyCatsDots()
    ensures DotsToSpaces("funny cats.jpg") == "funny cats jpg"
    ensures Trimmed("funny cats jpg")
  {
  }

  /** After a code, a rest made of words separated by single spaces, with no `#` and
      no forbidden character, becomes the description with dots and dashes turned
      into spaces. */
  lemma PlainDescription(code: string, d: string)
    requires code != [] && NoSpace(code) && d != [] && '#' !in d
    requires forall j :: 0 <= j < |d| && IsSpace(d[j]) ==> d[j] == ' '
    requires forall j :: 0 <= j < |d| - 1 ==> !(IsSpace(d[j]) && IsSpace(d[j + 1]))
    requires forall j :: 0 <= j < |d| ==> !IsForbidden(d[j])
    requires Trimmed(DotsToSpaces(d))
    ensures ExtractCodeAndDescription(code + " " + d) == Parsed(Some(code), DotsToSpaces(d))
  {
    CollapseFixpoint(d);
    SanitizeWithoutForbidden(d);
    NoComment(code, d);
  }

  /** Sanitizing a name with no forbidden character that stays trimmed once its dots
      and dashes are spaces only turns those dots and dashes into spaces. */
  lemma SanitizeWithoutForbidden(d: string)
    requires forall j :: 0 <= j < |d| ==> !IsForbidden(d[j])
    requires Trimmed(DotsToSpaces(d))
    ensures SanitizeFilename(d) == DotsToSpaces(d)
  {
    DropForbiddenNone(DotsToSpaces(d));
    StripTrimmed(DotsToSpaces(d));
  }

  /** A name without whitespace yields no code; its sanitized form is the
      description. */
  lemma ExampleWithoutCode()
    ensures ExtractCodeAndDescription("onlytext") == Parsed(None, "onlytext")
  {
    SafeWordHasNoCode("onlytext");
  }

  /** A name without whitespace yields no code, whatever else it holds. */
  lemma NoSpaceNoCode(x: string)
    requires NoSpace(x)
    ensures ExtractCodeAndDescription(x).code.None?
  {
    StripTrimmed(x);
  }

  /** A non-empty name with no whitespace and no unsafe character yields no code
      and is its own description. */
  lemma SafeWordHasNoCode(x: string)
    requires NoSpace(x) && forall j :: 0 <= j < |x| ==> !IsUnsafe(x[j])
    ensures ExtractCodeAndDescription(x) == Parsed(None, x)
  {
    StripTrimmed(x);
    SanitizeFixpoint(x);
  }

  /** The lower-case archive extensions `is_archive` accepts, as a suffix test. */
  predicate HasArchiveSuffix(s: string) {
    EndsWith(s, ".rar") || EndsWith(s, ".zip") || EndsWith(s, ".7z")
    || EndsWith(s, ".tar") || EndsWith(s, ".gz") || EndsWith(s, ".bz2")
  }

  /** `is_archive`: a non-empty name whose lower-cased form ends with an archive
      extension. */
  predicate IsArchive(fileName: string)
    ensures IsArchive(fileName) ==> |fileName| >= 3 && '.' in fileName
  {
    ArchiveNameHasDot(fileName);
    fileName != [] && HasArchiveSuffix(ToLower(fileName))
  }

  /** A name whose lower-cased form ends with an archive suffix is at least as long
      as the shortest suffix and holds the suffix's dot itself, since lower-casing
      leaves dots alone. */
  lemma ArchiveNameHasDot(fileName: string)
    ensures HasArchiveSuffix(ToLower(fileName)) ==> |fileName| >= 3 && '.' in fileName
  {
    var low := ToLower(fileName);
    if HasArchiveSuffix(low) {
      var n :=
        if EndsWith(low, ".rar") || EndsWith(low, ".zip") || EndsWith(low, ".tar")
           || EndsWith(low, ".bz2") then 4
        else 3;
      assert low[|low| - n] == '.';
      assert fileName[|fileName| - n] == '.';
    }
  }

  /** `is_archive` ignores case: a name and its lower-cased form are judged alike,
      and the empty name is never an archive. */
  lemma IsArchiveIgnoresCase(fileName: string)
    ensures IsArchive(fileName) == IsArchive(ToLower(fileName))
    ensures !IsArchive("")
  {
    assert ToLower(ToLower(fileName)) == ToLower(fileName);
  }

  /** An upper-case extension counts. */
  lemma UpperCaseArchive()
    ensures IsArchive("CAT001.RAR")
  {
    assert ToLower("CAT001.RAR") == "cat001.rar";
  }

  /** An image name is not an archive. */
  lemma ImageNotArchive()
    ensures !IsArchive("cat.jpg")
  {
    assert ToLower("cat.jpg") == "cat.jpg";
  }

  /** A name that merely ends in `rar`, without the dot, is not an archive. */
  lemma BareRarNotArchive()
    ensures !IsArchive("rar")
  {
    assert ToLower("rar") == "rar";
  }

  /** The decimal digit `d`. */
  function DigitChar(d: nat): char
    requires d < 10
  {
    ('0' as int + d) as char
  }

  /** Python's `str` of a natural number: its decimal digits, most significant first. */
  function NatToString(n: nat): (r: string)
    ensures r != [] && forall j :: 0 <= j < |r| ==> '0' <= r[j] <= '9'
    ensures n < 10 <==> |r| == 1
  {
    if n < 10 then [DigitChar(n)] else NatToString(n / 10) + [DigitChar(n % 10)]
  }

  /** The number a string of decimal digits denotes, as `int()` reads it. */
  function DigitsValue(s: string): int
    requires forall j :: 0 <= j < |s| ==> '0' <= s[j] <= '9'
  {
    if s == [] then 0 else 10 * DigitsValue(s[..|s| - 1]) + (s[|s| - 1] as int - '0' as int)
  }

  /** Reading the digits back gives the number: `int(str(n)) == n`. */
  lemma {:induction false} NatToStringValue(n: nat)
    ensures DigitsValue(NatToString(n)) == n
  {
    if n >= 10 {
      NatToStringValue(n / 10);
      var r := NatToString(n);
      assert r[..|r| - 1] == NatToString(n / 10);
    }
  }

  /** Python's `str` of an integer: an optional minus sign, then the digits. It holds
      no whitespace. */
  function IntToString(n: int): (r: string)
    ensures r != [] && NoSpace(r)
    ensures (r[0] == '-') <==> n < 0
  {
    if n < 0 then "-" + NatToString(-n) else NatToString(n)
  }
}
