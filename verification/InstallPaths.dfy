/**
 Installation directories: how the installer normalises and judges what was typed, and where payload paths end up
 when they are joined to an accepted directory.
 */
module InstallPaths {
  import opened SafePath

  const TAB: nat := 9
  const QUOTE: nat := 34

  predicate IsBlank(c: nat) {
    c == SPACE || c == TAB
  }

  // ---------------------------------------------------------------------------------------------
  // Normalising
  // ---------------------------------------------------------------------------------------------

  function TrimLeft(s: Text): Text {
    if s != [] && IsBlank(s[0]) then TrimLeft(s[1..]) else s
  }

  function TrimRight(s: Text): Text {
    if s != [] && IsBlank(s[|s| - 1]) then TrimRight(s[..|s| - 1]) else s
  }

  function Unquoted(s: Text): Text {
    if |s| >= 2 && s[0] == QUOTE && s[|s| - 1] == QUOTE then s[1..|s| - 1] else s
  }

  /** Every separator a backslash. */
  function Back(s: Text): (r: Text)
    ensures |r| == |s|
    ensures forall i :: 0 <= i < |s| ==> r[i] == if s[i] == SLASH then BACKSLASH else s[i]
  {
    seq(|s|, i requires 0 <= i < |s| => if s[i] == SLASH then BACKSLASH else s[i])
  }

  /** Every separator a slash. */
  function Forward(s: Text): (r: Text)
    ensures |r| == |s|
    ensures forall i :: 0 <= i < |s| ==> r[i] == if s[i] == BACKSLASH then SLASH else s[i]
  {
    seq(|s|, i requires 0 <= i < |s| => if s[i] == BACKSLASH then SLASH else s[i])
  }

  /** Whether the unit at i repeats a separator; the first two units may. */
  predicate Repeats(s: Text, i: nat)
    requires i < |s|
  {
    i > 1 && s[i] == BACKSLASH && s[i - 1] == BACKSLASH
  }

  function Collapse(s: Text, n: nat): Text
    requires n <= |s|
  {
    if n == 0 then []
    else if Repeats(s, n - 1) then Collapse(s, n - 1)
    else Collapse(s, n - 1) + [s[n - 1]]
  }

  function StripEnd(s: Text): Text {
    if |s| > 3 && s[|s| - 1] == BACKSLASH then StripEnd(s[..|s| - 1]) else s
  }

  function Normal(s: Text): Text {
    var b := Back(Unquoted(TrimRight(TrimLeft(s))));
    StripEnd(Collapse(b, |b|))
  }

  lemma {:induction false} TrimLeftAt(s: Text, k: nat)
    requires k <= |s| && forall i :: 0 <= i < k ==> IsBlank(s[i])
    ensures TrimLeft(s) == TrimLeft(s[k..])
  {
    if k > 0 {
      TrimLeftAt(s[1..], k - 1);
      assert s[1..][k - 1..] == s[k..];
    } else {
      assert s[0..] == s;
    }
  }

  lemma {:induction false} TrimRightAt(s: Text, k: nat)
    requires k <= |s| && forall i :: k <= i < |s| ==> IsBlank(s[i])
    ensures TrimRight(s) == TrimRight(s[..k])
    decreases |s| - k
  {
    if k < |s| {
      TrimRightAt(s[..|s| - 1], k);
      assert s[..|s| - 1][..k] == s[..k];
    } else {
      assert s[..k] == s;
    }
  }

  lemma TrimDone(s: Text)
    ensures s == [] || !IsBlank(s[0]) ==> TrimLeft(s) == s
    ensures s == [] || !IsBlank(s[|s| - 1]) ==> TrimRight(s) == s
  {
  }

  lemma TrimmedLeft(s: Text, begin: nat)
    requires begin <= |s| && (begin < |s| ==> !IsBlank(s[begin])) && forall i :: 0 <= i < begin ==> IsBlank(s[i])
    ensures TrimLeft(s) == s[begin..]
  {
    TrimLeftAt(s, begin);
    TrimDone(s[begin..]);
  }

  lemma TrimmedRight(s: Text, end: nat)
    requires end <= |s| && (0 < end ==> !IsBlank(s[end - 1])) && forall i :: end <= i < |s| ==> IsBlank(s[i])
    ensures TrimRight(s) == s[..end]
  {
    TrimRightAt(s, end);
    TrimDone(s[..end]);
  }

  lemma TrimmedAt(s: Text, begin: nat, end: nat)
    requires begin <= end <= |s|
    requires forall i :: 0 <= i < begin || end <= i < |s| ==> IsBlank(s[i])
    requires begin < end ==> !IsBlank(s[begin]) && !IsBlank(s[end - 1])
    ensures TrimRight(TrimLeft(s)) == s[begin..end]
  {
    hide TrimLeft, TrimRight, IsBlank;
    if begin == end {
      TrimmedLeft(s, |s|);
      TrimDone(s[|s|..]);
    } else {
      TrimmedLeft(s, begin);
      var t := s[begin..];
      forall i | end - begin <= i < |t|
        ensures IsBlank(t[i])
      {
        assert t[i] == s[begin + i];
      }
      TrimmedRight(t, end - begin);
      assert t[..end - begin] == s[begin..end];
    }
  }

  lemma Slice(s: Text, lo: nat, hi: nat, i: nat, j: nat)
    requires lo <= hi <= |s| && i <= j <= hi - lo
    ensures s[lo..hi][i..j] == s[lo + i..lo + j]
  {
    assert forall k :: 0 <= k < j - i ==> s[lo..hi][i..j][k] == s[lo + i..lo + j][k];
  }

  method TrimAndUnquote(input: Text) returns (result: Text)
    ensures result == Unquoted(TrimRight(TrimLeft(input)))
  {
    hide TrimLeft, TrimRight;
    var begin, end := 0, |input|;
    while begin < end && IsBlank(input[begin])
      invariant 0 <= begin <= end == |input|
      invariant forall i :: 0 <= i < begin ==> IsBlank(input[i])
    {
      begin := begin + 1;
    }
    while end > begin && IsBlank(input[end - 1])
      invariant begin <= end <= |input|
      invariant forall i :: end <= i < |input| ==> IsBlank(input[i])
    {
      end := end - 1;
    }
    TrimmedAt(input, begin, end);
    if end - begin >= 2 && input[begin] == QUOTE && input[end - 1] == QUOTE {
      Slice(input, begin, end, 1, end - begin - 1);
      begin, end := begin + 1, end - 1;
    }
    result := input[begin..end];
  }

  method ReplaceSlashes(before: Text) returns (result: Text)
    ensures result == Back(before)
  {
    result := before;
    var index := 0;
    while index < |result|
      invariant 0 <= index <= |result| == |before|
      invariant forall i :: 0 <= i < |result| ==> result[i] == if i < index then Back(before)[i] else before[i]
    {
      if result[index] == SLASH {
        result := result[index := BACKSLASH];
      }
      index := index + 1;
    }
  }

  method NormalizeDirectory(input: Text) returns (collapsed: Text)
    ensures collapsed == Normal(input)
  {
    hide TrimLeft, TrimRight, Unquoted, Back;
    var trimmed := TrimAndUnquote(input);
    var result := ReplaceSlashes(trimmed);
    collapsed := [];
    var index := 0;
    while index < |result|
      invariant 0 <= index <= |result| && collapsed == Collapse(result, index)
    {
      if !(result[index] == BACKSLASH && index > 0 && result[index - 1] == BACKSLASH && index > 1) {
        collapsed := collapsed + [result[index]];
      }
      index := index + 1;
    }
    while |collapsed| > 3 && collapsed[|collapsed| - 1] == BACKSLASH
      invariant StripEnd(collapsed) == StripEnd(Collapse(result, |result|))
    {
      collapsed := collapsed[..|collapsed| - 1];
    }
  }

  // ---------------------------------------------------------------------------------------------
  // Judging
  // ---------------------------------------------------------------------------------------------

  predicate IsLetter(c: nat) {
    65 <= c <= 90 || 97 <= c <= 122
  }

  predicate HasDrive(p: Text) {
    |p| >= 2 && p[1] == COLON && IsLetter(p[0])
  }

  predicate GoodComponent(c: Text) {
    c != [] && c != [DOT] && c != [DOT, DOT] && c[|c| - 1] != DOT && c[|c| - 1] != SPACE
  }

  predicate BadCharacter(c: nat) {
    c < 0x20 || c == 60 || c == 62 || c == COLON || c == QUOTE || c == 124 || c == 63 || c == 42
  }

  /** The components behind the drive. */
  function Parts(p: Text): seq<Text>
    requires |p| >= 3
  {
    Components(Forward(p[3..]))
  }

  /** An absolute path on a drive, every separator a single backslash and every component a name. */
  predicate Tidy(p: Text) {
    && |p| > 3 && HasDrive(p) && p[2] == BACKSLASH
    && (forall i :: 3 <= i < |p| ==> !BadCharacter(p[i]) && p[i] != SLASH)
    && forall c :: c in Parts(p) ==> GoodComponent(c)
  }

  predicate SameNoCase(a: Text, b: Text) {
    Lower(a) == Lower(b)
  }

  predicate IsInside(path: Text, root: Text) {
    var left, right := Normal(path), Normal(root);
    && right != [] && |left| >= |right| && SameNoCase(left[..|right|], right)
    && (|left| == |right| || right[|right| - 1] == BACKSLASH || left[|right|] == BACKSLASH)
  }

  datatype Issue =
    | Fine | Empty | NotAbsolute | Unc | DevicePath | DriveRoot | TooLong | InvalidCharacter | InvalidComponent
    | InsideWindows

  function StartIssue(path: Text): Issue {
    if path == [] then Empty
    else if |path| >= 4 && path[0] == path[1] == path[3] == BACKSLASH && (path[2] == 63 || path[2] == DOT)
    then DevicePath
    else if |path| >= 2 && path[0] == path[1] == BACKSLASH then Unc
    else if !HasDrive(path) || |path| < 3 || path[2] != BACKSLASH then
      if |path| == 2 && HasDrive(path) then DriveRoot else NotAbsolute
    else if |path| == 3 then DriveRoot
    else if |path| > 200 then TooLong
    else Fine
  }

  lemma StartMeans(p: Text)
    ensures StartIssue(p) == Fine <==> 3 < |p| <= 200 && HasDrive(p) && p[2] == BACKSLASH
    ensures StartIssue(p) != InsideWindows
  {
  }

  /** The complaints about how a path starts, in the order in which they are made. */
  lemma StartRules(p: Text)
    ensures var issue, device := StartIssue(p), Codes("\\\\?\\") <= p || Codes("\\\\.\\") <= p;
            var drive := exists i :: 0 <= i < 26 && Starts(p, i);
            && (issue == Empty <==> p == [])
            && (issue == DevicePath <==> device)
            && (issue == Unc <==> Codes("\\\\") <= p && !device)
            && (issue == DriveRoot <==> drive && (|p| == 2 || (|p| == 3 && p[2] == '\\' as nat)))
            && (issue == TooLong <==> drive && |p| > 200 && p[2] == '\\' as nat)
            && (issue == Fine <==> drive && 3 < |p| <= 200 && p[2] == '\\' as nat)
            && issue in {Empty, DevicePath, Unc, DriveRoot, TooLong, Fine, NotAbsolute}
  {
    DriveMeans(p);
    assert Codes("\\\\?\\") == [BACKSLASH, BACKSLASH, 63, BACKSLASH] && Codes("\\\\") == [BACKSLASH, BACKSLASH];
    assert Codes("\\\\.\\") == [BACKSLASH, BACKSLASH, DOT, BACKSLASH];
    assert |p| >= 4 ==> (Codes("\\\\?\\") <= p <==> p[..4] == Codes("\\\\?\\"));
    assert |p| >= 4 ==> (Codes("\\\\.\\") <= p <==> p[..4] == Codes("\\\\.\\"));
    hide HasDrive, Starts;
  }

  /** The path starts with the i-th letter of the alphabet, in either form, and a colon. */
  predicate Starts(p: Text, i: nat)
    requires i < 26
  {
    |p| >= 2 && (p[0] == SMALL[i] as nat || p[0] == CAPITALS[i] as nat) && p[1] == ':' as nat
  }

  lemma DriveMeans(p: Text)
    ensures HasDrive(p) <==> exists i :: 0 <= i < 26 && Starts(p, i)
  {
    assert forall i :: 0 <= i < 26 ==> CAPITALS[i] as nat == 65 + i && SMALL[i] as nat == 97 + i;
    if HasDrive(p) {
      assert Starts(p, if p[0] <= 90 then p[0] - 65 else p[0] - 97);
    }
  }

  /** The characters and the components that are refused. */
  lemma RefusedMeans(c: nat, component: Text)
    ensures BadCharacter(c) <==> c < 32 || c in Codes("<>:\"|?*")
    ensures GoodComponent(component) <==>
              && component != [] && component != Codes(".") && component != Codes("..")
              && component[|component| - 1] !in Codes(". ")
  {
    assert Codes("<>:\"|?*") == [60, 62, COLON, QUOTE, 124, 63, 42];
    assert Codes(".") == [DOT] && Codes("..") == [DOT, DOT] && Codes(". ") == [DOT, SPACE];
  }

  method ValidateInstallDirectory(directory: Text, windows: Text) returns (issue: Issue)
    ensures issue == Fine <==>
              var p := Normal(directory);
              Tidy(p) && |p| <= 200 && (windows != [] ==> !IsInside(p, windows))
    // inside: up to ASCII case, drive by drive and component by component
    ensures var p, w := Normal(directory), Normal(windows);
            Tidy(w) ==> (issue == Fine <==> Tidy(p) && |p| <= 200 && (windows != [] ==> !LiesIn(p, w)))
    // which complaint comes first
    ensures var p := Normal(directory);
            if StartIssue(p) != Fine then issue == StartIssue(p)
            else if exists i :: 3 <= i < |p| && BadCharacter(p[i]) then issue == InvalidCharacter
            else if exists c :: c in Parts(p) && !GoodComponent(c) then issue == InvalidComponent
            else issue == if windows != [] && IsInside(p, windows) then InsideWindows else Fine
  {
    hide Normal, GoodComponent, IsInside, LiesIn;
    var path := NormalizeDirectory(directory);
    StartMeans(path);
    hide StartIssue;
    if StartIssue(path) != Fine {
      return StartIssue(path);
    }
    for index := 3 to |path|
      invariant forall i :: 3 <= i < index ==> !BadCharacter(path[i])
    {
      if BadCharacter(path[index]) {
        return InvalidCharacter;
      }
    }
    NormalHasNoSlash(directory);
    var good := GoodComponents(path[3..]);
    if !good {
      return InvalidComponent;
    }
    if Tidy(Normal(windows)) {
      InsideMeans(path, windows);
    }
    if windows != [] && IsInside(path, windows) {
      return InsideWindows;
    }
    return Fine;
  }

  lemma {:induction false} CollapseKeeps(s: Text, n: nat)
    requires n <= |s|
    ensures forall c :: c in Collapse(s, n) ==> c in s
  {
    if n > 0 {
      CollapseKeeps(s, n - 1);
    }
  }

  lemma {:induction false} StripEndKeeps(s: Text)
    ensures forall c :: c in StripEnd(s) ==> c in s
  {
    if |s| > 3 && s[|s| - 1] == BACKSLASH {
      StripEndKeeps(s[..|s| - 1]);
    }
  }

  lemma NormalHasNoSlash(s: Text)
    ensures forall i :: 0 <= i < |Normal(s)| ==> Normal(s)[i] != SLASH
  {
    hide TrimLeft, TrimRight, Unquoted, Collapse, StripEnd;
    var b := Back(Unquoted(TrimRight(TrimLeft(s))));
    CollapseKeeps(b, |b|);
    StripEndKeeps(Collapse(b, |b|));
    assert SLASH !in b;
    assert SLASH !in Normal(s);
  }

  /** The loop over components; the path's separators are backslashes. */
  method GoodComponents(tail: Text) returns (good: bool)
    requires forall i :: 0 <= i < |tail| ==> tail[i] != SLASH
    ensures good <==> forall c :: c in Components(Forward(tail)) ==> GoodComponent(c)
  {
    hide GoodComponent, NextSlash, Components;
    var f := Forward(tail);
    var start := 0;
    assert f[0..] == f;
    while true
      invariant 0 <= start <= |f|
      invariant (forall c :: c in Components(f) ==> GoodComponent(c))
                <==> forall c :: c in Components(f[start..]) ==> GoodComponent(c)
      decreases |f| - start
    {
      var end := NextSlash(f, start);
      ComponentsFrom(f, start);
      SameComponent(tail, f, start, end);
      var component := tail[start..end];
      assert component in Components(f[start..]) by {
        assert Components(f[start..])[0] == component;
      }
      if !GoodComponent(component) {
        return false;
      }
      if end == |f| {
        return true;
      }
      assert forall c :: c in Components(f[start..]) <==> c == component || c in Components(f[end + 1..]);
      start := end + 1;
    }
  }

  lemma SameComponent(tail: Text, f: Text, start: nat, end: nat)
    requires f == Forward(tail) && start <= end <= |f|
    requires forall i :: start <= i < end ==> f[i] != SLASH
    ensures tail[start..end] == f[start..end]
  {
    assert forall i :: start <= i < end ==> tail[i] == f[i];
  }

  // ---------------------------------------------------------------------------------------------
  // An accepted directory is normal
  // ---------------------------------------------------------------------------------------------

  /** Text whose components are all names starts and ends with a name and never repeats its separator. */
  lemma {:induction false} ComponentsStep(f: Text)
    ensures var end := NextSlash(f, 0);
            Components(f) == if end == |f| then [f] else [f[..end]] + Components(f[end + 1..])
  {
  }

  lemma {:induction false} Solid(f: Text)
    requires forall c :: c in Components(f) ==> c != []
    ensures f != [] && f[0] != SLASH && f[|f| - 1] != SLASH
    ensures forall i :: 0 < i < |f| && f[i] == SLASH ==> f[i - 1] != SLASH
    ensures exists c :: c in Components(f) && c != [] && c[|c| - 1] == f[|f| - 1]
    decreases |f|
  {
    ComponentsStep(f);
    hide Components, NextSlash;
    var end := NextSlash(f, 0);
    assert Components(f)[0] in Components(f);
    if end < |f| {
      var tail := f[end + 1..];
      assert forall c :: c in Components(tail) ==> c in Components(f);
      Solid(tail);
      assert forall i :: 0 <= i < |tail| ==> tail[i] == f[end + 1 + i];
      assert f[..end] != [];
      SolidSteps(f, end);
    }
  }

  lemma SolidSteps(f: Text, end: nat)
    requires 0 < end < |f| && (forall i :: 0 <= i < end ==> f[i] != SLASH)
    requires var tail := f[end + 1..];
             && tail != [] && tail[0] != SLASH && tail[|tail| - 1] != SLASH
             && forall i :: 0 < i < |tail| && tail[i] == SLASH ==> tail[i - 1] != SLASH
    ensures f[|f| - 1] != SLASH && forall i :: 0 < i < |f| && f[i] == SLASH ==> f[i - 1] != SLASH
  {
    var tail := f[end + 1..];
    assert tail[|tail| - 1] == f[|f| - 1] && tail[0] == f[end + 1];
    forall i | 0 < i < |f| && f[i] == SLASH
      ensures f[i - 1] != SLASH
    {
      if i > end + 1 {
        assert tail[i - end - 1] == f[i] && tail[i - end - 2] == f[i - 1];
      }
    }
  }

  /** What a tidy path looks like, unit by unit. */
  lemma TidyMeans(p: Text)
    requires Tidy(p)
    ensures forall i :: 2 < i < |p| && p[i] == BACKSLASH ==> p[i - 1] != BACKSLASH
    ensures p[|p| - 1] != BACKSLASH && !IsBlank(p[|p| - 1]) && p[|p| - 1] != DOT
  {
    var t := p[3..];
    var f := Forward(t);
    assert Parts(p) == Components(f);
    assert forall c :: c in Components(f) ==> GoodComponent(c);
    Solid(f);
    var c :| c in Components(f) && c != [] && c[|c| - 1] == f[|f| - 1];
    assert GoodComponent(c);
    assert forall i :: 0 <= i < |t| ==> t[i] == p[i + 3] && (f[i] == SLASH <==> p[i + 3] == BACKSLASH);
    assert t[|t| - 1] == p[|p| - 1];
    assert !BadCharacter(p[|p| - 1]);
    forall i | 2 < i < |p| && p[i] == BACKSLASH
      ensures p[i - 1] != BACKSLASH
    {
      assert f[i - 3] == SLASH;
      if i > 3 {
        assert f[i - 4] != SLASH;
      }
    }
  }

  lemma {:induction false} CollapseNothing(s: Text, n: nat)
    requires n <= |s| && forall i :: 0 <= i < n ==> !Repeats(s, i)
    ensures Collapse(s, n) == s[..n]
  {
    if n > 0 {
      CollapseNothing(s, n - 1);
    }
  }

  /** Normalising an accepted directory again changes nothing. */
  lemma TidyIsNormal(p: Text)
    requires Tidy(p)
    ensures Normal(p) == p
  {
    TidyMeans(p);
    TrimDone(p);
    assert Unquoted(p) == p;
    assert Back(p) == p;
    CollapseNothing(p, |p|);
    assert p[..|p|] == p;
    hide TrimLeft, TrimRight, Collapse, Unquoted, Tidy;
  }

  /** No blank at either end, and not in quotes. */
  predicate Bare(n: Text) {
    && (n != [] ==> !IsBlank(n[0]) && !IsBlank(n[|n| - 1]))
    && !(|n| >= 2 && n[0] == QUOTE && n[|n| - 1] == QUOTE)
  }

  lemma {:induction false} CollapsedOnce(s: Text, n: nat)
    requires n <= |s|
    ensures var r := Collapse(s, n);
            && |r| <= n && (n <= 2 ==> |r| == n) && (forall i :: 0 <= i < |r| ==> !Repeats(r, i))
            && (n > 0 ==> r != [] && (r[|r| - 1] == BACKSLASH <==> s[n - 1] == BACKSLASH))
  {
    if n > 0 {
      CollapsedOnce(s, n - 1);
      var q, r := Collapse(s, n - 1), Collapse(s, n);
      forall i | 0 <= i < |r|
        ensures !Repeats(r, i)
      {
        assert i < |q| ==> r[i] == q[i] && (i > 0 ==> r[i - 1] == q[i - 1]) && !Repeats(q, i);
      }
    }
  }

  lemma {:induction false} StripEndMeans(s: Text)
    ensures StripEnd(s) <= s && StripEnd(StripEnd(s)) == StripEnd(s)
  {
    if |s| > 3 && s[|s| - 1] == BACKSLASH {
      StripEndMeans(s[..|s| - 1]);
    }
  }

  lemma {:induction false} TrimShortens(s: Text)
    ensures |TrimLeft(s)| <= |s| && |TrimRight(s)| <= |s|
    ensures s != [] && IsBlank(s[0]) ==> |TrimLeft(s)| < |s|
    ensures s != [] && IsBlank(s[|s| - 1]) ==> |TrimRight(s)| < |s|
    decreases |s|
  {
    if s != [] {
      TrimShortens(s[1..]);
      TrimShortens(s[..|s| - 1]);
    }
  }

  /** The steps after trimming only shorten, and leave alone what they have done once. */
  lemma TailShortens(t: Text)
    ensures var b := Back(Unquoted(t)); |StripEnd(Collapse(b, |b|))| <= |Unquoted(t)| <= |t|
  {
    var b := Back(Unquoted(t));
    CollapsedOnce(b, |b|);
    StripEndMeans(Collapse(b, |b|));
  }

  lemma TailRepeats(s: Text)
    ensures var n := Normal(s); Back(n) == n && Collapse(n, |n|) == n && StripEnd(n) == n
  {
    var b := Back(Unquoted(TrimRight(TrimLeft(s))));
    var n := Normal(s);
    NormalHasNoSlash(s);
    assert Back(n) == n;
    var r := Collapse(b, |b|);
    CollapsedOnce(b, |b|);
    StripEndMeans(r);
    forall i | 0 <= i < |n|
      ensures !Repeats(n, i)
    {
      assert n[i] == r[i] && (i > 0 ==> n[i - 1] == r[i - 1]) && !Repeats(r, i);
    }
    CollapseNothing(n, |n|);
    assert n[..|n|] == n;
  }

  /** Normalising twice is normalising once exactly when the first result is bare. */
  lemma NormalAgain(s: Text)
    ensures Normal(Normal(s)) == Normal(s) <==> Bare(Normal(s))
  {
    var n := Normal(s);
    TailRepeats(s);
    TrimDone(n);
    var left := TrimLeft(n);
    TrimShortens(n);
    TrimShortens(left);
    TailShortens(TrimRight(left));
    hide TrimLeft, TrimRight, Collapse, StripEnd;
    if Bare(n) {
      assert Unquoted(n) == n;
    } else if left == n && TrimRight(n) == n {
      assert |Unquoted(n)| < |n|;
    }
  }

  /** It is not always: blanks inside quotes survive the first round only. */
  lemma NormalTwice()
    ensures exists s :: Normal(Normal(s)) != Normal(s)
  {
    var s: Text, t: Text, u: Text := [QUOTE, SPACE, 97, QUOTE], [SPACE, 97], [97];
    TrimDone(s);
    assert s[1..|s| - 1] == t;
    NormalOfShort(s, s, t);
    assert t[1..] == u;
    TrimDone(u);
    assert TrimLeft(t) == u;
    hide TrimLeft, TrimRight;
    NormalOfShort(t, u, u);
    hide Normal;
    assert Normal(Normal(s)) == u != t == Normal(s);
  }

  lemma NormalOfShort(s: Text, trimmed: Text, t: Text)
    requires TrimRight(TrimLeft(s)) == trimmed && Unquoted(trimmed) == t && |t| <= 2 && SLASH !in t
    ensures Normal(s) == t
  {
    ShortIsBare(t);
    hide TrimLeft, TrimRight, Unquoted, Back, Collapse, StripEnd;
  }

  lemma ShortIsBare(t: Text)
    requires |t| <= 2 && SLASH !in t
    ensures var b := Back(t); b == t && StripEnd(Collapse(b, |b|)) == t
  {
    assert Back(t) == t;
    CollapseNothing(t, |t|);
    assert t[..|t|] == t;
  }

  // ---------------------------------------------------------------------------------------------
  // Normalising, as rewriting
  // ---------------------------------------------------------------------------------------------

  /** What is left of a text once it is trimmed and unquoted. */
  function Squeezed(t: Text): Text {
    StripEnd(Collapse(Back(t), |t|))
  }

  ghost predicate AllIn(s: Text, characters: string) {
    forall i :: 0 <= i < |s| ==> s[i] in Codes(characters)
  }

  /** A text with no blank at an end. */
  predicate Trimmed(t: Text) {
    t == [] || (t[0] !in Codes(" \t") && t[|t| - 1] !in Codes(" \t"))
  }

  /** Spaces and tabs around a text go, then one pair of quotes around what is left. */
  lemma NormalTrims(a: Text, t: Text, b: Text)
    requires AllIn(a, " \t") && AllIn(b, " \t") && Trimmed(t)
    ensures Normal(a + t + b)
            == if |t| >= 2 && t[0] == t[|t| - 1] == '"' as nat then Squeezed(t[1..|t| - 1]) else Squeezed(t)
  {
    var s := a + t + b;
    assert Codes(" \t") == [SPACE, TAB];
    TrimmedAt(s, |a|, |a| + |t|);
    assert s[|a|..|a| + |t|] == t;
  }

  lemma {:induction false} CollapsePrefix(s: Text, t: Text, n: nat)
    requires n <= |s| && n <= |t| && s[..n] == t[..n]
    ensures Collapse(s, n) == Collapse(t, n)
  {
    if n > 0 {
      assert s[..n - 1] == s[..n][..n - 1] == t[..n][..n - 1] == t[..n - 1];
      assert s[n - 1] == s[..n][n - 1] == t[..n][n - 1] == t[n - 1];
      assert n > 1 ==> s[n - 2] == s[..n][n - 2] == t[..n][n - 2] == t[n - 2];
      CollapsePrefix(s, t, n - 1);
    }
  }

  /** A separator more or less in a run changes nothing behind the first unit. */
  lemma {:induction false} CollapseRun(x: Text, y: Text, k: nat)
    requires |x| >= 1 && k <= |y|
    ensures Collapse(x + [BACKSLASH, BACKSLASH] + y, |x| + 2 + k) == Collapse(x + [BACKSLASH] + y, |x| + 1 + k)
  {
    var s, t := x + [BACKSLASH, BACKSLASH] + y, x + [BACKSLASH] + y;
    if k == 0 {
      CollapsePrefix(s, t, |x| + 1);
    } else {
      CollapseRun(x, y, k - 1);
    }
  }

  lemma BackParts(x: Text, m: Text, y: Text)
    ensures Back(x + m + y) == Back(x) + Back(m) + Back(y)
  {
  }

  /** There is a repeated separator behind the first unit, or one to drop at the end. */
  predicate Squeezes(t: Text) {
    || (exists i :: 1 < i < |t| && t[i - 1] == t[i] == '\\' as nat)
    || (|t| > 3 && t[|t| - 1] == '\\' as nat)
  }

  /**
   The rest is rewriting: slashes count as backslashes, a run of separators behind the first unit is one separator,
   one at the end goes unless it is among the first three units, and a text to which nothing of this applies stays.
   */
  lemma SqueezedRules(x: Text, y: Text)
    ensures Squeezed(x) == Squeezed(Back(x))
    ensures |x| >= 1 ==> Squeezed(x + Codes("\\\\") + y) == Squeezed(x + Codes("\\") + y)
    ensures |x| >= 3 ==> Squeezed(x + Codes("\\")) == Squeezed(x)
    ensures '/' as nat !in x && !Squeezes(x) ==> Squeezed(x) == x
  {
    assert Codes("\\\\") == [BACKSLASH, BACKSLASH] && Codes("\\") == [BACKSLASH];
    assert Back(Back(x)) == Back(x);
    hide StripEnd;
    if |x| >= 1 {
      RunIsOne(x, y);
    }
    if |x| >= 3 {
      EndGoes(x);
    }
    NothingApplies(x);
  }

  lemma RunIsOne(x: Text, y: Text)
    requires |x| >= 1
    ensures Squeezed(x + [BACKSLASH, BACKSLASH] + y) == Squeezed(x + [BACKSLASH] + y)
  {
    hide StripEnd, Collapse;
    BackParts(x, [BACKSLASH, BACKSLASH], y);
    BackParts(x, [BACKSLASH], y);
    assert Back([BACKSLASH, BACKSLASH]) == [BACKSLASH, BACKSLASH] && Back([BACKSLASH]) == [BACKSLASH];
    CollapseRun(Back(x), Back(y), |y|);
  }

  lemma NothingApplies(x: Text)
    ensures '/' as nat !in x && !Squeezes(x) ==> Squeezed(x) == x
  {
    if '/' as nat !in x && !Squeezes(x) {
      assert Back(x) == x;
      CollapseNothing(x, |x|);
      assert x[..|x|] == x;
    }
  }

  lemma {:induction false} CollapseLong(s: Text, n: nat)
    requires n <= |s|
    ensures |Collapse(s, n)| >= if n <= 2 then n else 2
    ensures n > 2 && s[n - 1] != BACKSLASH ==> |Collapse(s, n)| > 2
  {
    if n > 0 {
      CollapseLong(s, n - 1);
    }
  }

  lemma EndGoes(x: Text)
    requires |x| >= 3
    ensures Squeezed(x + [BACKSLASH]) == Squeezed(x)
  {
    var s, n := Back(x + [BACKSLASH]), |x|;
    assert s[..n] == Back(x) && s[n] == BACKSLASH && Back(x)[..n] == Back(x);
    CollapsePrefix(s, Back(x), n);
    CollapseLong(Back(x), n);
    var c := Collapse(Back(x), n);
    if Back(x)[n - 1] != BACKSLASH {
      assert (c + [BACKSLASH])[..|c|] == c;
    }
  }

  // ---------------------------------------------------------------------------------------------
  // Joining
  // ---------------------------------------------------------------------------------------------

  function Join(parent: Text, child: Text): Text {
    (if parent != [] && parent[|parent| - 1] != BACKSLASH && parent[|parent| - 1] != SLASH
     then parent + [BACKSLASH] else parent) + Back(child)
  }

  method JoinPath(parent: Text, child: Text) returns (result: Text)
    ensures result == Join(parent, child)
  {
    result := parent;
    if result != [] && result[|result| - 1] != BACKSLASH && result[|result| - 1] != SLASH {
      result := result + [BACKSLASH];
    }

    ghost var start := result;
    for i := 0 to |child|
      invariant result == start + Back(child)[..i]
    {
      result := result + [if child[i] == SLASH then BACKSLASH else child[i]];
      assert Back(child)[..i + 1] == Back(child)[..i] + [Back(child)[i]];
    }
    assert Back(child)[..|child|] == Back(child);
  }

  lemma ComponentsAt(f: Text, end: nat, head: Text, tail: Text)
    requires end < |f| && f[end] == SLASH && (forall i :: 0 <= i < end ==> f[i] != SLASH)
    requires f[..end] == head && f[end + 1..] == tail
    ensures Components(f) == [head] + Components(tail)
  {
    NextSlashIs(f, 0, end);
  }

  lemma JoinBefore(a: Text, b: Text)
    requires NextSlash(a, 0) == |a|
    ensures Components(a + [SLASH] + b) == Components(a) + Components(b)
  {
    var s := a + [SLASH] + b;
    assert s[..|a|] == a && s[|a| + 1..] == b;
    assert forall i :: 0 <= i < |a| ==> s[i] == a[i];
    ComponentsAt(s, |a|, a, b);
    hide NextSlash;
  }

  lemma JoinBehind(a: Text, b: Text, end: nat)
    requires end < |a|
    ensures var s := a + [SLASH] + b;
            s[..end] == a[..end] && s[end] == a[end] && s[end + 1..] == a[end + 1..] + [SLASH] + b
  {
  }

  lemma {:induction false} ComponentsOfJoin(a: Text, b: Text)
    ensures Components(a + [SLASH] + b) == Components(a) + Components(b)
    decreases |a|
  {
    var end := NextSlash(a, 0);
    if end == |a| {
      JoinBefore(a, b);
      return;
    }
    var s, head, tail := a + [SLASH] + b, a[..end], a[end + 1..];
    JoinBehind(a, b, end);
    assert forall i :: 0 <= i < end ==> s[i] == a[i];
    ComponentsAt(a, end, head, tail);
    ComponentsAt(s, end, head, tail + [SLASH] + b);
    ComponentsOfJoin(tail, b);
    hide Components, NextSlash;
    Assoc([head], Components(tail), Components(b));
  }

  lemma Assoc(a: seq<Text>, b: seq<Text>, c: seq<Text>)
    ensures a + b + c == a + (b + c)
  {
  }

  lemma {:induction false} CharactersOf(s: Text, i: nat)
    requires i < |s| && s[i] != SLASH
    ensures exists c, j :: c in Components(s) && 0 <= j < |c| && c[j] == s[i]
    decreases |s|
  {
    var end := NextSlash(s, 0);
    if end == |s| {
      assert Components(s)[0] == s && s in Components(s);
    } else if i < end {
      assert Components(s)[0] == s[..end];
      assert s[..end] in Components(s) && s[..end][i] == s[i];
    } else {
      CharactersOf(s[end + 1..], i - end - 1);
      var c, j :| c in Components(s[end + 1..]) && 0 <= j < |c| && c[j] == s[end + 1..][i - end - 1];
      assert Components(s)[1..] == Components(s[end + 1..]);
      assert c in Components(s);
    }
  }

  /** A safe path has no characters that a directory may not have. */
  lemma SafeCharacters(p: Text)
    requires SafeComponents(p)
    ensures forall i :: 0 <= i < |p| && p[i] != SLASH ==> !IsForbidden(p[i])
  {
    forall i | 0 <= i < |p| && p[i] != SLASH
      ensures !IsForbidden(p[i])
    {
      CharactersOf(p, i);
      var c, j :| c in Components(p) && 0 <= j < |c| && c[j] == p[i];
      assert SafeComponent(c);
    }
  }

  lemma ForwardOfJoin(d: Text, p: Text)
    requires |d| > 3 && d[|d| - 1] != BACKSLASH && d[|d| - 1] != SLASH && BACKSLASH !in p
    ensures Join(d, p) == d + [BACKSLASH] + Back(p) && |Join(d, p)| == |d| + 1 + |p|
    ensures Forward(Join(d, p)[3..]) == Forward(d[3..]) + [SLASH] + p
  {
    assert Join(d, p)[3..] == d[3..] + [BACKSLASH] + Back(p);
    assert Forward(Back(p)) == p;
  }

  lemma JoinParts(d: Text, p: Text)
    requires |d| > 3 && d[|d| - 1] != BACKSLASH && d[|d| - 1] != SLASH && BACKSLASH !in p
    ensures Parts(Join(d, p)) == Parts(d) + Components(p)
  {
    ForwardOfJoin(d, p);
    ComponentsOfJoin(Forward(d[3..]), p);
    hide Components, Forward, Join;
  }

  lemma PartsAreGood(a: seq<Text>, b: seq<Text>)
    requires (forall c :: c in a ==> GoodComponent(c)) && forall c :: c in b ==> SafeComponent(c)
    ensures forall c :: c in a + b ==> GoodComponent(c)
  {
  }

  lemma JoinCharacters(d: Text, p: Text)
    requires Tidy(d) && SafeComponents(p) && Join(d, p) == d + [BACKSLASH] + Back(p)
    ensures forall i :: 3 <= i < |Join(d, p)| ==> !BadCharacter(Join(d, p)[i]) && Join(d, p)[i] != SLASH
  {
    SafeCharacters(p);
    hide SafeComponents, Join, Parts, HasDrive, GoodComponent;
    var j := Join(d, p);
    forall i | 3 <= i < |j|
      ensures !BadCharacter(j[i]) && j[i] != SLASH
    {
      if i > |d| {
        assert j[i] == Back(p)[i - |d| - 1];
      }
    }
  }

  lemma JoinIsTidy(d: Text, p: Text)
    requires Tidy(d) && SafeComponents(p)
    ensures Tidy(Join(d, p)) && Parts(Join(d, p)) == Parts(d) + Components(p)
    ensures Join(d, p) == d + [BACKSLASH] + Back(p)
  {
    TidyMeans(d);
    SafeCharacters(p);
    ForwardOfJoin(d, p);
    JoinParts(d, p);
    JoinCharacters(d, p);
    hide Components, Join, Parts, Forward, BadCharacter, GoodComponent, SafeComponent, IsForbidden;
    PartsAreGood(Parts(d), Components(p));
  }

  /**
   Joining a safe path to a tidy directory gives a tidy path whose components are the directory's followed by the
   path's own; it is normal, and strictly inside the directory.
   */
  lemma JoinConfined(d: Text, p: Text)
    requires Tidy(d) && SafeComponents(p)
    ensures Tidy(Join(d, p)) && Normal(Join(d, p)) == Join(d, p)
    ensures Parts(Join(d, p)) == Parts(d) + Components(p)
    ensures IsInside(Join(d, p), d) && !SameNoCase(Join(d, p), d)
  {
    JoinIsTidy(d, p);
    TidyIsNormal(Join(d, p));
    TidyIsNormal(d);
    assert d != [] by {
      TidyMeans(d);
    }
    hide Tidy, Normal, Join, Parts, Components, SafeComponents, Lower;
    var j := Join(d, p);
    assert j[..|d|] == d && j[|d|] == BACKSLASH;
  }

  function AllLower(cs: seq<Text>): (r: seq<Text>)
    ensures |r| == |cs| && forall i :: 0 <= i < |cs| ==> r[i] == Lower(cs[i])
  {
    seq(|cs|, i requires 0 <= i < |cs| => Lower(cs[i]))
  }

  lemma LowerKeepsSlash(s: Text)
    ensures NextSlash(Lower(s), 0) == NextSlash(s, 0)
  {
    NextSlashIs(Lower(s), 0, NextSlash(s, 0));
  }

  lemma LowerParts(s: Text, at: nat)
    requires at < |s|
    ensures Lower(s)[..at] == Lower(s[..at]) && Lower(s)[at + 1..] == Lower(s[at + 1..])
  {
    hide AsciiLower;
  }

  lemma AllLowerMore(head: Text, rest: seq<Text>)
    ensures AllLower([head] + rest) == [Lower(head)] + AllLower(rest)
  {
    hide Lower;
  }

  lemma {:induction false} ComponentsOfLower(s: Text)
    ensures Components(Lower(s)) == AllLower(Components(s))
    decreases |s|
  {
    var end := NextSlash(s, 0);
    LowerKeepsSlash(s);
    hide Lower, NextSlash, AllLower;
    if end < |s| {
      ComponentsOfLower(s[end + 1..]);
      LowerParts(s, end);
      AllLowerMore(s[..end], Components(s[end + 1..]));
    } else {
      AllLowerMore(s, []);
    }
  }

  lemma {:induction false} JoinAppend(a: seq<Text>, b: seq<Text>)
    requires a != [] && b != []
    ensures SafePath.Join(a + b) == SafePath.Join(a) + [SLASH] + SafePath.Join(b)
  {
    if |a| == 1 {
      assert (a + b)[1..] == b;
    } else {
      assert (a + b)[1..] == a[1..] + b;
      JoinAppend(a[1..], b);
    }
  }

  /** A path continues another, at a separator, exactly if it has that path's components first. */
  lemma ContinuesMeans(a: Text, b: Text)
    ensures a == b || b + [SLASH] <= a <==> Components(b) <= Components(a)
  {
    ComponentsJoin(a);
    ComponentsJoin(b);
    var ca, cb := Components(a), Components(b);
    hide Components;
    if b + [SLASH] <= a {
      var rest := a[|b| + 1..];
      assert a == b + [SLASH] + rest;
      ComponentsOfJoin(b, rest);
    }
    if cb <= ca && ca != cb {
      var rest := ca[|cb|..];
      assert ca == cb + rest;
      JoinAppend(cb, rest);
    }
  }

  /** The drive and the leading components agree, up to ASCII case. */
  predicate LiesIn(p: Text, w: Text)
    requires |p| >= 3 && |w| >= 3
  {
    AsciiLower(p[0]) == AsciiLower(w[0]) && AllLower(Parts(w)) <= AllLower(Parts(p))
  }

  /** A tidy path is inside a root that normalises to a tidy path exactly if it lies in that path. */
  lemma InsideMeans(p: Text, root: Text)
    requires Tidy(p) && Tidy(Normal(root))
    ensures IsInside(p, root) <==> LiesIn(p, Normal(root))
  {
    var w := Normal(root);
    TidyIsNormal(p);
    TidyIsNormal(w);
    TidyMeans(w);
    var a, b := Forward(p[3..]), Forward(w[3..]);
    ComponentsOfLower(a);
    ComponentsOfLower(b);
    ContinuesMeans(Lower(a), Lower(b));
    InsideByText(p, w, a, b);
    hide Components, Tidy;
  }

  lemma InsideByText(p: Text, w: Text, a: Text, b: Text)
    requires Tidy(p) && Tidy(w) && a == Forward(p[3..]) && b == Forward(w[3..])
    requires Normal(p) == p && Normal(w) == w && w[|w| - 1] != BACKSLASH
    ensures IsInside(p, w) <==>
              AsciiLower(p[0]) == AsciiLower(w[0]) && (Lower(a) == Lower(b) || Lower(b) + [SLASH] <= Lower(a))
  {
    if |p| >= |w| {
      SamePrefix(p, w, a, b);
    }
    assert |a| == |p| - 3 && |b| == |w| - 3;
    assert |p| > |w| ==> (Lower(a)[|b|] == SLASH <==> p[|w|] == BACKSLASH || p[|w|] == SLASH);
    assert |p| > |w| ==> p[|w|] != SLASH;
    ContinuesAt(Lower(a), Lower(b));
    hide Normal, Parts, GoodComponent, BadCharacter, Lower, Forward, HasDrive;
  }

  lemma ContinuesAt(a: Text, b: Text)
    ensures b + [SLASH] <= a <==> |a| > |b| && a[..|b|] == b && a[|b|] == SLASH
    ensures |a| == |b| ==> a[..|b|] == a
  {
    assert (b + [SLASH])[..|b|] == b && (b + [SLASH])[|b|] == SLASH;
    if |a| > |b| && a[..|b|] == b && a[|b|] == SLASH {
      assert a[..|b| + 1] == b + [SLASH];
    }
  }

  lemma SamePrefix(p: Text, w: Text, a: Text, b: Text)
    requires |p| > 3 && |w| > 3 && p[1] == w[1] && p[2] == w[2] && |p| >= |w|
    requires forall i :: 3 <= i < |p| ==> p[i] != SLASH
    requires forall i :: 3 <= i < |w| ==> w[i] != SLASH
    requires a == Forward(p[3..]) && b == Forward(w[3..])
    ensures SameNoCase(p[..|w|], w) <==> AsciiLower(p[0]) == AsciiLower(w[0]) && Lower(a)[..|b|] == Lower(b)
  {
    var l, m, la, lb := Lower(p[..|w|]), Lower(w), Lower(a)[..|b|], Lower(b);
    forall i | 0 <= i < |b|
      ensures la[i] == lb[i] <==> l[i + 3] == m[i + 3]
    {
      SameUnit(p[i + 3], w[i + 3]);
    }
    assert l[0] == AsciiLower(p[0]) && m[0] == AsciiLower(w[0]) && l[1] == m[1] && l[2] == m[2];
    hide Lower, Forward, AsciiLower;
    if la == lb && l[0] == m[0] {
      forall j | 3 <= j < |w|
        ensures l[j] == m[j]
      {
        assert la[j - 3] == lb[j - 3];
      }
    }
    if l == m {
      assert la == lb;
    }
  }

  lemma SameUnit(c: nat, d: nat)
    requires c != SLASH && d != SLASH
    ensures AsciiLower(c) == AsciiLower(d)
            <==> AsciiLower(if c == BACKSLASH then SLASH else c) == AsciiLower(if d == BACKSLASH then SLASH else d)
  {
  }

  lemma LowerOfJoin(d: Text, b: Text)
    ensures Lower(d + [BACKSLASH] + b) == Lower(d) + [BACKSLASH] + Lower(b)
  {
  }

  lemma LowerBack(p: Text, q: Text)
    requires BACKSLASH !in p && BACKSLASH !in q
    ensures Lower(Back(p)) == Lower(Back(q)) <==> Lower(p) == Lower(q)
  {
    assert |p| == |Lower(Back(p))| && |q| == |Lower(Back(q))|;
    if |p| == |q| {
      forall i | 0 <= i < |p|
        ensures Lower(Back(p))[i] == Lower(Back(q))[i] <==> Lower(p)[i] == Lower(q)[i]
      {
        assert p[i] in p && q[i] in q;
      }
    }
  }

  /** Different payload paths, up to ASCII case, never share a destination. */
  lemma JoinInjective(d: Text, p: Text, q: Text)
    requires Tidy(d) && SafeComponents(p) && SafeComponents(q)
    ensures SameNoCase(Join(d, p), Join(d, q)) <==> SameNoCase(p, q)
  {
    TidyMeans(d);
    SafeCharacters(p);
    SafeCharacters(q);
    assert d[|d| - 1] != SLASH;
    ForwardOfJoin(d, p);
    ForwardOfJoin(d, q);
    LowerOfJoin(d, Back(p));
    LowerOfJoin(d, Back(q));
    LowerBack(p, q);
    hide SafeComponents, Tidy, Lower, Back, Join;
    Cancel(Lower(d) + [BACKSLASH], Lower(Back(p)), Lower(Back(q)));
  }

  lemma Cancel(a: Text, b: Text, c: Text)
    ensures a + b == a + c <==> b == c
  {
    if a + b == a + c {
      assert (a + b)[|a|..] == b && (a + c)[|a|..] == c;
    }
  }
}
