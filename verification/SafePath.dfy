/** Which payload paths the installer accepts. Paths are sequences of code units; only ASCII units have meaning. */
module SafePath {
  import opened Utf8

  type Text = seq<nat>

  const SLASH: nat := 47
  const BACKSLASH: nat := 92
  const COLON: nat := 58
  const DOT: nat := 46
  const SPACE: nat := 32
  const MAX_PATH_CHARS: nat := 240

  /** A text written as characters. */
  function Codes(s: string): (t: Text)
    ensures |t| == |s| && forall i :: 0 <= i < |s| ==> t[i] == s[i] as nat
  {
    seq(|s|, i requires 0 <= i < |s| => s[i] as nat)
  }

  function AsciiLower(c: nat): nat {
    if 65 <= c <= 90 then c + 32 else c
  }

  const CAPITALS := "ABCDEFGHIJKLMNOPQRSTUVWXYZ"
  const SMALL := "abcdefghijklmnopqrstuvwxyz"

  /** Exactly the capital letters have another form, the small letter of the same place in the alphabet. */
  lemma LowerMeans(c: nat)
    ensures (forall i :: 0 <= i < 26 ==> c != CAPITALS[i] as nat) ==> AsciiLower(c) == c
    ensures forall i :: 0 <= i < 26 && c == CAPITALS[i] as nat ==> AsciiLower(c) == SMALL[i] as nat
  {
    assert forall i :: 0 <= i < 26 ==> CAPITALS[i] as nat == 65 + i && SMALL[i] as nat == 97 + i;
    if 65 <= c <= 90 {
      assert CAPITALS[c - 65] as nat == c;
    }
  }

  function Lower(s: Text): (r: Text)
    ensures |r| == |s|
  {
    seq(|s|, i requires 0 <= i < |s| => AsciiLower(s[i]))
  }

  /** The position of the next separator from `start` on, or the end. */
  function NextSlash(s: Text, start: nat): (end: nat)
    requires start <= |s|
    ensures start <= end <= |s| && (end < |s| ==> s[end] == SLASH)
    ensures forall i :: start <= i < end ==> s[i] != SLASH
    decreases |s| - start
  {
    if start == |s| || s[start] == SLASH then start else NextSlash(s, start + 1)
  }

  /** What the separators separate: one component more than there are separators. */
  function Components(s: Text): (cs: seq<Text>)
    ensures cs != []
    decreases |s|
  {
    var end := NextSlash(s, 0);
    if end == |s| then [s] else [s[..end]] + Components(s[end + 1..])
  }

  function Join(cs: seq<Text>): Text
    requires cs != []
  {
    if |cs| == 1 then cs[0] else cs[0] + [SLASH] + Join(cs[1..])
  }

  predicate NoSlash(c: Text) {
    forall i :: 0 <= i < |c| ==> c[i] != SLASH
  }

  lemma {:induction false} ComponentsJoin(s: Text)
    ensures Join(Components(s)) == s
    ensures forall c :: c in Components(s) ==> NoSlash(c)
    decreases |s|
  {
    var end := NextSlash(s, 0);
    if end < |s| {
      ComponentsJoin(s[end + 1..]);
      assert s == s[..end] + [SLASH] + s[end + 1..];
      assert Components(s)[1..] == Components(s[end + 1..]);
    }
  }

  predicate IsForbidden(c: nat) {
    c < 0x20 || c == BACKSLASH || c == COLON || c == 42 || c == 63 || c == 34 || c == 60 || c == 62 || c == 124
  }

  /** The part before the first dot. */
  function Stem(c: Text): Text {
    if c == [] || c[0] == DOT then [] else [c[0]] + Stem(c[1..])
  }

  const DEVICES: set<Text> := {
    [99, 111, 110], [112, 114, 110], [97, 117, 120], [110, 117, 108],           // con prn aux nul
    [99, 111, 110, 105, 110, 36], [99, 111, 110, 111, 117, 116, 36]}             // conin$ conout$

  predicate IsReservedDeviceName(c: Text) {
    var stem := Lower(Stem(c));
    stem in DEVICES
    || (|stem| == 4 && (stem[..3] == [99, 111, 109] || stem[..3] == [108, 112, 116]) && 49 <= stem[3] <= 57)
  }

  predicate SafeComponent(c: Text) {
    && c != [] && c != [DOT] && c != [DOT, DOT]
    && c[|c| - 1] != DOT && c[|c| - 1] != SPACE
    && (forall i :: 0 <= i < |c| ==> !IsForbidden(c[i]))
    && !IsReservedDeviceName(c)
  }

  predicate SafeComponents(s: Text) {
    forall c :: c in Components(s) ==> SafeComponent(c)
  }

  /** The device names; each is reserved with any extension, too. */
  const DEVICE_NAMES: seq<string> := [
    "con", "prn", "aux", "nul", "conin$", "conout$",
    "com1", "com2", "com3", "com4", "com5", "com6", "com7", "com8", "com9",
    "lpt1", "lpt2", "lpt3", "lpt4", "lpt5", "lpt6", "lpt7", "lpt8", "lpt9"]

  predicate NamesDevice(c: Text, name: string) {
    Lower(c) == Codes(name) || Codes(name + ".") <= Lower(c)
  }

  lemma {:induction false} StemMeans(c: Text)
    ensures Stem(c) <= c && DOT !in Stem(c) && (|Stem(c)| < |c| ==> c[|Stem(c)|] == DOT)
  {
    if c != [] && c[0] != DOT {
      StemMeans(c[1..]);
    }
  }

  /** A text without dots names the device exactly if it is the stem. */
  lemma NamedByStem(c: Text, name: string)
    requires forall i :: 0 <= i < |name| ==> name[i] != '.'
    ensures NamesDevice(c, name) <==> Lower(Stem(c)) == Codes(name)
  {
    StemMeans(c);
    var stem, low := Stem(c), Lower(c);
    assert Lower(stem) == low[..|stem|];
    assert Codes(name + ".") == Codes(name) + [DOT];
    assert |stem| < |c| ==> low[|stem|] == DOT;
    if Lower(stem) == Codes(name) {
      assert |stem| == |c| ==> low[..|stem|] == low;
      assert |stem| < |c| ==> low[..|stem| + 1] == Codes(name) + [DOT];
    }
    assert forall i :: 0 <= i < |stem| ==> low[i] != DOT;
    if NamesDevice(c, name) {
      assert |low| >= |name| && low[..|name|] == Codes(name);
      assert |low| > |name| ==> low[|name|] == DOT;
      assert |stem| <= |name|;
      if |stem| < |name| {
        assert false;
      }
    }
  }

  lemma ReservedMeans(c: Text)
    ensures IsReservedDeviceName(c) <==> exists i :: 0 <= i < |DEVICE_NAMES| && NamesDevice(c, DEVICE_NAMES[i])
  {
    forall i | 0 <= i < |DEVICE_NAMES|
      ensures NamesDevice(c, DEVICE_NAMES[i]) <==> Lower(Stem(c)) == Codes(DEVICE_NAMES[i])
    {
      NamedByStem(c, DEVICE_NAMES[i]);
    }
    hide NamesDevice;
    ReservedStems(Lower(Stem(c)));
  }

  /** The list of reserved stems. */
  lemma ReservedStems(t: Text)
    ensures (t in DEVICES
             || (|t| == 4 && (t[..3] == [99, 111, 109] || t[..3] == [108, 112, 116]) && 49 <= t[3] <= 57))
            <==> exists i :: 0 <= i < |DEVICE_NAMES| && t == Codes(DEVICE_NAMES[i])
  {
    NumberedStems(t);
    NamedStems(t);
    assert (exists i :: 0 <= i < |DEVICE_NAMES| && t == Codes(DEVICE_NAMES[i]))
           <==> (exists i :: 0 <= i < 6 && t == Codes(DEVICE_NAMES[i]))
                || (exists i :: 6 <= i < 24 && t == Codes(DEVICE_NAMES[i]));
  }

  lemma NamedStems(t: Text)
    ensures t in DEVICES <==> exists i :: 0 <= i < 6 && t == Codes(DEVICE_NAMES[i])
  {
    assert Codes(DEVICE_NAMES[0]) == [99, 111, 110] && Codes(DEVICE_NAMES[1]) == [112, 114, 110];
    assert Codes(DEVICE_NAMES[2]) == [97, 117, 120] && Codes(DEVICE_NAMES[3]) == [110, 117, 108];
    assert Codes(DEVICE_NAMES[4]) == [99, 111, 110, 105, 110, 36];
    assert Codes(DEVICE_NAMES[5]) == [99, 111, 110, 111, 117, 116, 36];
  }

  lemma NumberedStems(t: Text)
    ensures (|t| == 4 && (t[..3] == [99, 111, 109] || t[..3] == [108, 112, 116]) && 49 <= t[3] <= 57)
            <==> exists i :: 6 <= i < 24 && t == Codes(DEVICE_NAMES[i])
  {
    forall i | 6 <= i < 15
      ensures Codes(DEVICE_NAMES[i]) == [99, 111, 109, 43 + i]
    {
    }
    forall i | 15 <= i < 24
      ensures Codes(DEVICE_NAMES[i]) == [108, 112, 116, 34 + i]
    {
    }
    if |t| == 4 && 49 <= t[3] <= 57 {
      assert t == t[..3] + [t[3]];
      if t[..3] == [99, 111, 109] {
        assert t == Codes(DEVICE_NAMES[t[3] - 43]);
      } else if t[..3] == [108, 112, 116] {
        assert t == Codes(DEVICE_NAMES[t[3] - 34]);
      }
    }
  }

  /** What makes a name safe, spelled out. */
  lemma SafeComponentMeans(c: Text)
    ensures SafeComponent(c) <==>
              && c != [] && c != Codes(".") && c != Codes("..") && c[|c| - 1] !in Codes(". ")
              && (forall i :: 0 <= i < |c| ==> c[i] >= 32 && c[i] !in Codes("\\:*?\"<>|"))
              && !exists i :: 0 <= i < |DEVICE_NAMES| && NamesDevice(c, DEVICE_NAMES[i])
  {
    ReservedMeans(c);
    assert Codes(".") == [DOT] && Codes("..") == [DOT, DOT] && Codes(". ") == [DOT, SPACE];
    assert Codes("\\:*?\"<>|") == [BACKSLASH, COLON, 42, 63, 34, 60, 62, 124];
    hide IsReservedDeviceName, NamesDevice;
  }

  lemma FirstComponent(t: Text, end: nat)
    requires end == NextSlash(t, 0)
    ensures Components(t) == if end == |t| then [t] else [t[..end]] + Components(t[end + 1..])
  {
  }

  /** The components from `start` on. */
  lemma ComponentsFrom(s: Text, start: nat)
    requires start <= |s|
    ensures var end := NextSlash(s, start);
            Components(s[start..]) == if end == |s| then [s[start..]] else [s[start..end]] + Components(s[end + 1..])
  {
    var t, end := s[start..], NextSlash(s, start);
    NextSlashFrom(s, start);
    FirstComponent(t, end - start);
    hide NextSlash, Components;
    if end < |s| {
      assert t[..end - start] == s[start..end] && t[end - start + 1..] == s[end + 1..];
    }
  }

  lemma {:induction false} NextSlashIs(s: Text, start: nat, e: nat)
    requires start <= e <= |s| && (e < |s| ==> s[e] == SLASH) && forall i :: start <= i < e ==> s[i] != SLASH
    ensures NextSlash(s, start) == e
    decreases e - start
  {
    if start < e {
      NextSlashIs(s, start + 1, e);
    }
  }

  lemma NextSlashFrom(s: Text, start: nat)
    requires start <= |s|
    ensures NextSlash(s[start..], 0) + start == NextSlash(s, start)
  {
    var a := NextSlash(s[start..], 0);
    assert forall i :: start <= i < |s| ==> s[i] == s[start..][i - start];
    NextSlashIs(s, start, a + start);
  }

  lemma SafeFrom(s: Text, start: nat)
    requires start <= |s|
    ensures var end := NextSlash(s, start);
            SafeComponents(s[start..])
            <==> SafeComponent(s[start..end]) && (end < |s| ==> SafeComponents(s[end + 1..]))
  {
    ComponentsFrom(s, start);
    var end := NextSlash(s, start);
    hide SafeComponent;
    assert s[start..end] in Components(s[start..]) by {
      assert Components(s[start..])[0] == s[start..end];
    }
    if end < |s| {
      assert forall c :: c in Components(s[end + 1..]) ==> c in Components(s[start..]);
    }
  }

  method IsSafeRelativePath(path: seq<u8>) returns (ok: bool)
    ensures ok <==> 0 < |path| <= MAX_PATH_CHARS && IsEncoding(path) && SafeComponents(path)
  {
    hide SafeComponent, SafeComponents, IsEncoding, NextSlash;
    if path == [] || |path| > MAX_PATH_CHARS {
      return false;
    }
    var utf8 := IsValidUtf8(path);
    if !utf8 {
      return false;
    }
    var start := 0;
    assert path[0..] == path;
    while true
      invariant 0 <= start <= |path|
      invariant SafeComponents(path) <==> SafeComponents(path[start..])
      decreases |path| - start
    {
      var end := NextSlash(path, start);
      SafeFrom(path, start);
      var safe := IsSafeComponent(path[start..end]);
      if !safe || end == |path| {
        return safe;
      }
      start := end + 1;
    }
  }

  method IsSafeComponent(component: Text) returns (ok: bool)
    ensures ok <==> SafeComponent(component)
  {
    if component == [] || component == [DOT] || component == [DOT, DOT] {
      return false;
    }
    if component[|component| - 1] == DOT || component[|component| - 1] == SPACE {
      return false;
    }
    for i := 0 to |component|
      invariant forall j :: 0 <= j < i ==> !IsForbidden(component[j])
    {
      if IsForbidden(component[i]) {
        return false;
      }
    }
    return !IsReservedDeviceName(component);
  }
}
