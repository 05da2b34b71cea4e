/**
 Which device-supplied names may become local ones, `local_name_problem` in
 crates/mtp-rs-cli/src/cli/commands/get.rs, against what a file system makes of a path: it stops at
 a NUL, splits at separators, and resolves `.` and `..`.
 */
module LocalNames {
  import opened Common
  import opened Pack

  /** The components of a path below some folder. */
  type Path = seq<Text>

  const SLASH: Scalar := '/' as int
  const BACKSLASH: Scalar := '\\' as int
  const FULL_STOP: Scalar := '.' as int
  const SPACE: Scalar := ' ' as int

  // --- The check ---

  function Ascii(s: string): Text
    requires forall i :: 0 <= i < |s| ==> s[i] < 128 as char
  {
    seq(|s|, i requires 0 <= i < |s| => s[i] as int)
  }

  predicate IsComponent(name: Text) {
    name != [] && name != [FULL_STOP] && name != [FULL_STOP, FULL_STOP]
    && SLASH !in name && BACKSLASH !in name && 0 !in name
  }

  function UpperAscii(name: Text): (r: Text)
    ensures |r| == |name|
  {
    seq(|name|, i requires 0 <= i < |name| => if 'a' as int <= name[i] <= 'z' as int then name[i] - 32 else name[i])
  }

  /** The part before the first dot. */
  function Stem(name: Text): Text {
    if name == [] || name[0] == FULL_STOP then [] else [name[0]] + Stem(name[1..])
  }

  predicate IsReservedOnWindows(name: Text) {
    var stem := UpperAscii(Stem(name));
    || stem in {Ascii("CON"), Ascii("PRN"), Ascii("AUX"), Ascii("NUL")}
    || (|stem| == 4 && stem[..3] in {Ascii("COM"), Ascii("LPT")}
        && ('0' as int <= stem[3] <= '9' as int || stem[3] in {0xB9, 0xB2, 0xB3}))
  }

  /** Whether a device-supplied name can be a file or folder name on this machine. */
  predicate IsLocalName(name: Text, windows: bool) {
    IsComponent(name) &&
    (windows ==>
       && (forall i :: 0 <= i < |name| ==> 0x20 <= name[i] && name[i] !in Ascii("<>:\"|?*"))
       && name[|name| - 1] != FULL_STOP && name[|name| - 1] != SPACE
       && !IsReservedOnWindows(name))
  }

  // --- What a file system makes of a path ---

  /** `text` cut at every separator; always at least one segment. */
  function Segments(text: Text, separators: set<Scalar>): (segments: seq<Text>)
    ensures segments != []
  {
    if text == [] then [[]]
    else
      var rest := Segments(text[1..], separators);
      if text[0] in separators then [[]] + rest else [[text[0]] + rest[0]] + rest[1..]
  }

  /** Where segments lead from some folder: nothing if they leave it. */
  function Resolve(segments: seq<Text>): Option<Path> {
    if segments == [] then Some([])
    else
      var n := |segments| - 1;
      var path :- Resolve(segments[..n]);
      if segments[n] == [] || segments[n] == [0x2E] then Some(path)
      else if segments[n] == [0x2E, 0x2E] then (if path == [] then None else Some(path[..|path| - 1]))
      else Some(path + [segments[n]])
  }

  /** Where a text leads from some folder, as a path. */
  function Leads(text: Text, separators: set<Scalar>): Option<Path> { Resolve(Segments(BeforeNul(text), separators)) }

  /** The components, one folder after the other. */
  function Joined(p: Path): Text {
    if p == [] then [] else if |p| == 1 then p[0] else Joined(p[..|p| - 1]) + [0x2F] + p[|p| - 1]
  }

  lemma {:induction false} SegmentsAreParts(text: Text, separators: set<Scalar>)
    ensures forall s :: s in Segments(text, separators) ==> |s| <= |text| && forall c :: c in s ==> c !in separators
    ensures (forall c :: c in text ==> c !in separators) ==> Segments(text, separators) == [text]
  {
    if text != [] {
      SegmentsAreParts(text[1..], separators);
      var rest := Segments(text[1..], separators);
      assert rest[0] in rest;
      assert text == [text[0]] + text[1..];
    }
  }

  lemma {:induction false} ResolvedAreSegments(segments: seq<Text>)
    ensures Resolve(segments).Some? ==> forall c :: c in Resolve(segments).value ==> c in segments
  {
    if segments != [] {
      ResolvedAreSegments(segments[..|segments| - 1]);
    }
  }

  lemma {:induction false} ResolveOne(s: Text)
    ensures Resolve([s]) ==
            if s == [] || s == [0x2E] then Some([]) else if s == [0x2E, 0x2E] then None else Some([s])
  {
    assert [s][..0] == [] && Resolve([]) == Some([]);
    assert [] + [s] == [s];
  }

  /** A name is accepted exactly when, taken as a path, it leads to itself: one component, neither here nor up. */
  lemma {:induction false} ComponentLeadsToItself(name: Text)
    ensures IsComponent(name) <==> Leads(name, {0x2F, 0x5C}) == Some([name])
  {
    hide Segments, Resolve, BeforeNul;
    var seen := BeforeNul(name);
    SegmentsAreParts(seen, {0x2F, 0x5C});
    ResolvedAreSegments(Segments(seen, {0x2F, 0x5C}));
    ResolveOne(seen);
    if Leads(name, {0x2F, 0x5C}) == Some([name]) {
      assert name in [name];
      assert |seen| == |name| && seen == name;
    }
  }

  lemma {:induction false} SegmentsUnfold(c: Scalar, text: Text, separators: set<Scalar>)
    ensures var rest := Segments(text, separators);
            Segments([c] + text, separators) == if c in separators then [[]] + rest else [[c] + rest[0]] + rest[1..]
    ensures Segments([], separators) == [[]]
  {
    assert ([c] + text)[1..] == text;
  }

  lemma {:induction false} SegmentsOfJoin(a: Text, b: Text, separators: set<Scalar>)
    requires 0x2F in separators && forall c :: c in b ==> c !in separators
    ensures Segments(a + [0x2F] + b, separators) == Segments(a, separators) + [b]
  {
    hide Segments;
    if a == [] {
      assert a + [0x2F] + b == [0x2F] + b;
      SegmentsUnfold(0x2F, b, separators);
      SegmentsAreParts(b, separators);
    } else {
      var c, rest := a[0], a[1..];
      assert a == [c] + rest && a + [0x2F] + b == [c] + (rest + [0x2F] + b);
      SegmentsUnfold(c, rest, separators);
      SegmentsUnfold(c, rest + [0x2F] + b, separators);
      SegmentsOfJoin(rest, b, separators);
      var s := Segments(rest, separators);
      assert (s + [b])[1..] == s[1..] + [b] && (s + [b])[0] == s[0];
    }
  }

  /** Joined accepted names lead where they say: below the folder they are joined to, name by name. */
  lemma {:induction false} JoinedLeadsThere(p: Path, separators: set<Scalar>)
    requires forall i :: 0 <= i < |p| ==> IsComponent(p[i])
    requires separators == {0x2F} || separators == {0x2F, 0x5C}
    ensures p != [] ==> Leads(Joined(p), separators) == Some(p) && 0 !in Joined(p)
  {
    hide Segments, Resolve, BeforeNul, Leads;
    if |p| == 1 {
      assert p == [p[0]];
      ResolveOne(p[0]);
      SegmentsAreParts(p[0], separators);
      LeadsWithoutNul(p[0], separators);
    } else if |p| > 1 {
      var n := |p| - 1;
      JoinedLeadsThere(p[..n], separators);
      SegmentsOfJoin(Joined(p[..n]), p[n], separators);
      LeadsWithoutNul(Joined(p[..n]), separators);
      LeadsWithoutNul(Joined(p), separators);
      ResolveMore(Segments(Joined(p[..n]), separators), p[n]);
      assert p == p[..n] + [p[n]];
    }
  }

  lemma {:induction false} LeadsWithoutNul(text: Text, separators: set<Scalar>)
    requires 0 !in text
    ensures Leads(text, separators) == Resolve(Segments(text, separators))
  {
  }

  lemma {:induction false} ResolveMore(segments: seq<Text>, s: Text)
    requires Resolve(segments).Some? && s != [] && s != [0x2E] && s != [0x2E, 0x2E]
    ensures Resolve(segments + [s]) == Some(Resolve(segments).value + [s])
  {
    assert (segments + [s])[..|segments|] == segments;
  }

  // --- Windows ---

  /** Same letters, in either case; `b` has them in upper case. */
  predicate SameLetters(a: Text, b: Text) {
    |a| == |b| && forall i :: 0 <= i < |a| ==> a[i] == b[i] || (0x41 <= b[i] <= 0x5A && a[i] == b[i] + 0x20)
  }

  /** CON, PRN, AUX, NUL; COM or LPT and a digit, which may be a superscript 1, 2 or 3. */
  predicate IsDevice(d: Text) {
    || d in {[0x43, 0x4F, 0x4E], [0x50, 0x52, 0x4E], [0x41, 0x55, 0x58], [0x4E, 0x55, 0x4C]}
    || (|d| == 4 && d[..3] in {[0x43, 0x4F, 0x4D], [0x4C, 0x50, 0x54]}
        && d[3] in {0x30, 0x31, 0x32, 0x33, 0x34, 0x35, 0x36, 0x37, 0x38, 0x39, 0xB9, 0xB2, 0xB3})
  }

  /** `name` is the device `d`, perhaps with an extension. */
  predicate Names(name: Text, d: Text) {
    |d| <= |name| && SameLetters(name[..|d|], d) && (|name| == |d| || name[|d|] == 0x2E)
  }

  /** What Windows allows of a name: no control or reserved character, no dot or space at the end, no device. */
  ghost predicate WindowsAllows(name: Text) {
    && (forall c :: c in name ==> 0x20 <= c && c !in {0x3C, 0x3E, 0x3A, 0x22, 0x7C, 0x3F, 0x2A})
    && (name != [] ==> name[|name| - 1] != 0x2E && name[|name| - 1] != 0x20)
    && !exists d :: IsDevice(d) && Names(name, d)
  }

  lemma {:induction false} StemIs(name: Text, n: nat)
    requires n <= |name| && (forall i :: 0 <= i < n ==> name[i] != 0x2E) && (n < |name| ==> name[n] == 0x2E)
    ensures Stem(name) == name[..n]
  {
    if n > 0 {
      StemIs(name[1..], n - 1);
      assert name[..n] == [name[0]] + name[1..][..n - 1];
    }
  }

  lemma {:induction false} StemEnds(name: Text)
    ensures var n := |Stem(name)|;
            n <= |name| && Stem(name) == name[..n] && (n < |name| ==> name[n] == 0x2E)
  {
    if name != [] && name[0] != 0x2E {
      StemEnds(name[1..]);
    }
  }

  lemma {:induction false} ReservedNames()
    ensures Ascii("CON") == [0x43, 0x4F, 0x4E] && Ascii("PRN") == [0x50, 0x52, 0x4E]
    ensures Ascii("AUX") == [0x41, 0x55, 0x58] && Ascii("NUL") == [0x4E, 0x55, 0x4C]
    ensures Ascii("COM") == [0x43, 0x4F, 0x4D] && Ascii("LPT") == [0x4C, 0x50, 0x54]
  {
  }

  lemma {:induction false} ReservedIsDevice(name: Text)
    ensures IsReservedOnWindows(name) <==> IsDevice(UpperAscii(Stem(name)))
  {
    hide Ascii, UpperAscii, Stem;
    ReservedNames();
  }

  lemma {:induction false} DevicesAreUpper(d: Text)
    requires IsDevice(d)
    ensures forall i :: 0 <= i < |d| ==> d[i] != 0x2E && !(0x61 <= d[i] <= 0x7A)
  {
    if |d| == 4 {
      assert d == d[..3] + [d[3]];
    }
  }

  /** A name is reserved exactly when it names a device, in any case and with any extension. */
  lemma {:induction false} ReservedNamesDevice(name: Text)
    ensures IsReservedOnWindows(name) <==> exists d :: IsDevice(d) && Names(name, d)
  {
    hide IsReservedOnWindows, IsDevice, Stem;
    ReservedIsDevice(name);
    StemEnds(name);
    var d := UpperAscii(Stem(name));
    if IsDevice(d) {
      assert Names(name, d);
    }
    forall d | IsDevice(d) && Names(name, d) ensures UpperAscii(Stem(name)) == d {
      DevicesAreUpper(d);
      forall i | 0 <= i < |d| ensures name[i] != 0x2E {
        assert name[..|d|][i] == name[i];
      }
      StemIs(name, |d|);
    }
  }

  /** What is asked of a name, said without the check: it leads to itself, and Windows allows it if it has to. */
  ghost predicate Usable(name: Text, windows: bool) {
    Leads(name, {0x2F, 0x5C}) == Some([name]) && (windows ==> WindowsAllows(name))
  }

  lemma {:induction false} ForbiddenCharacters(c: Scalar)
    ensures c in Ascii("<>:\"|?*") <==> c in {0x3C, 0x3E, 0x3A, 0x22, 0x7C, 0x3F, 0x2A}
  {
    assert Ascii("<>:\"|?*") == [0x3C, 0x3E, 0x3A, 0x22, 0x7C, 0x3F, 0x2A];
  }

  /** The check accepts a name exactly when it is usable. */
  lemma {:induction false} CheckIsExact(name: Text, windows: bool)
    ensures IsLocalName(name, windows) <==> Usable(name, windows)
  {
    hide IsComponent, Leads, IsReservedOnWindows, IsDevice, Names, Ascii;
    ComponentLeadsToItself(name);
    ReservedNamesDevice(name);
    ComponentIsNotEmpty(name);
    forall c: Scalar ensures c in Ascii("<>:\"|?*") <==> c in {0x3C, 0x3E, 0x3A, 0x22, 0x7C, 0x3F, 0x2A} {
      ForbiddenCharacters(c);
    }
    if forall i :: 0 <= i < |name| ==> 0x20 <= name[i] && name[i] !in Ascii("<>:\"|?*") {
      forall c | c in name ensures 0x20 <= c && c !in {0x3C, 0x3E, 0x3A, 0x22, 0x7C, 0x3F, 0x2A} {
        var i :| 0 <= i < |name| && name[i] == c;
      }
    }
    if forall c :: c in name ==> 0x20 <= c && c !in {0x3C, 0x3E, 0x3A, 0x22, 0x7C, 0x3F, 0x2A} {
      forall i | 0 <= i < |name| ensures 0x20 <= name[i] && name[i] !in Ascii("<>:\"|?*") {
        assert name[i] in name;
      }
    }
  }

  lemma {:induction false} ComponentIsNotEmpty(name: Text)
    ensures IsComponent(name) ==> name != []
  {
  }
}
