/**
 * Keybind strings and key codes (src/config.rs). A keybind is written
 * `<special>-<key>-<key>… | <command>`; the key codes the compositor
 * compares against are the byte sums of the trimmed, ASCII-upper-cased key
 * names.
 */
module Config {
  import opened Wrappers
  import opened Ascii

  // ---------------------------------------------------------------------
  // `str::split` on a non-empty pattern

  /** `sep` occurs in `s` starting at `j`. */
  predicate OccursAt(s: string, sep: string, j: int) {
    0 <= j && j + |sep| <= |s| && s[j..j + |sep|] == sep
  }

  /** The first index at which `sep` occurs in `s`. */
  function Find(s: string, sep: string): (r: Option<nat>)
    decreases |s|
    ensures r.Some? ==> OccursAt(s, sep, r.value)
    ensures r.Some? ==> forall j :: 0 <= j < r.value ==> !OccursAt(s, sep, j)
    ensures r.None? ==> forall j :: 0 <= j <= |s| ==> !OccursAt(s, sep, j)
  {
    if |s| < |sep| then None
    else if s[..|sep|] == sep then Some(0)
    else
      var rest := Find(s[1..], sep);
      forall j | 1 <= j <= |s| ensures OccursAt(s, sep, j) <==> OccursAt(s[1..], sep, j - 1) {
        OccursShift(s, sep, j);
      }
      match rest
      case Some(k) => Some(k + 1)
      case None => None
  }

  /** An occurrence past the first character is one in the rest. */
  lemma OccursShift(s: string, sep: string, j: int)
    requires 1 <= j <= |s|
    ensures OccursAt(s, sep, j) <==> OccursAt(s[1..], sep, j - 1)
  {
    if j + |sep| <= |s| {
      var shifted, here := s[1..][j - 1..j - 1 + |sep|], s[j..j + |sep|];
      assert forall k :: 0 <= k < |sep| ==> shifted[k] == here[k];
      assert here == shifted;
    }
  }

  /** The pieces of `s` between the non-overlapping occurrences of `sep`,
      found left to right. */
  function Split(s: string, sep: string): (r: seq<string>)
    requires |sep| > 0
    decreases |s|
    ensures |r| >= 1
  {
    match Find(s, sep)
    case None => [s]
    case Some(i) => [s[..i]] + Split(s[i + |sep|..], sep)
  }

  /** `join`: the pieces with `sep` between each two. */
  function Join(parts: seq<string>, sep: string): string
    requires |parts| >= 1
  {
    if |parts| == 1 then parts[0] else parts[0] + sep + Join(parts[1..], sep)
  }

  /** Splitting loses nothing: joining the pieces gives the string back. */
  lemma {:induction false} JoinSplit(s: string, sep: string)
    requires |sep| > 0
    decreases |s|
    ensures Join(Split(s, sep), sep) == s
  {
    match Find(s, sep)
    case None =>
    case Some(i) =>
      var rest := s[i + |sep|..];
      JoinSplit(rest, sep);
      JoinCons(s[..i], Split(rest, sep), sep);
      Reassemble(s, sep, i);
  }

  lemma JoinCons(a: string, rest: seq<string>, sep: string)
    requires |rest| >= 1
    ensures Join([a] + rest, sep) == a + sep + Join(rest, sep)
  {
    assert ([a] + rest)[1..] == rest;
  }

  lemma Reassemble(s: string, sep: string, i: nat)
    requires OccursAt(s, sep, i)
    ensures s == s[..i] + sep + s[i + |sep|..]
  {
    assert s == s[..i] + s[i..i + |sep|] + s[i + |sep|..];
  }

  /** No piece contains the separator. */
  lemma {:induction false} SplitPiecesFree(s: string, sep: string)
    requires |sep| > 0
    decreases |s|
    ensures forall k, j :: 0 <= k < |Split(s, sep)| && 0 <= j ==> !OccursAt(Split(s, sep)[k], sep, j)
  {
    match Find(s, sep)
    case None =>
    case Some(i) =>
      SplitPiecesFree(s[i + |sep|..], sep);
      forall j | 0 <= j ensures !OccursAt(s[..i], sep, j) {
        if j + |sep| <= i {
          assert j < i && !OccursAt(s, sep, j);
          assert s[..i][j..j + |sep|] == s[j..j + |sep|];
        }
      }
      assert Split(s, sep) == [s[..i]] + Split(s[i + |sep|..], sep);
  }

  /** A string with no occurrence of `sep` is one piece. */
  lemma SplitSingle(s: string, sep: string)
    requires |sep| > 0
    requires forall j :: 0 <= j ==> !OccursAt(s, sep, j)
    ensures Split(s, sep) == [s]
  {
    assert Find(s, sep).None?;
  }

  /** When `sep` does not occur in `a + sep` before the end of `a`, the
      first piece of `a + sep + b` is `a`. */
  lemma SplitFirst(a: string, sep: string, b: string)
    requires |sep| > 0
    requires forall j :: 0 <= j < |a| ==> !OccursAt(a + sep, sep, j)
    ensures Split(a + sep + b, sep) == [a] + Split(b, sep)
  {
    var s := a + sep + b;
    assert OccursAt(s, sep, |a|) by {
      assert s[|a|..|a| + |sep|] == sep;
    }
    forall j | 0 <= j < |a| ensures !OccursAt(s, sep, j) {
      if OccursAt(s, sep, j) {
        assert (a + sep)[j..j + |sep|] == s[j..j + |sep|];
        assert OccursAt(a + sep, sep, j);
      }
    }
    assert Find(s, sep) == Some(|a|);
    assert s[..|a|] == a && s[|a| + |sep|..] == b;
  }

  /** If a character of `sep` occurs neither in `a` nor earlier in `sep`,
      `sep` cannot start inside `a`. */
  lemma NoEarlyOccurrence(a: string, sep: string, m: nat)
    requires m < |sep| && sep[m] !in a && sep[m] !in sep[..m]
    ensures forall j :: 0 <= j < |a| ==> !OccursAt(a + sep, sep, j)
  {
    forall j | 0 <= j < |a| ensures !OccursAt(a + sep, sep, j) {
      var s := a + sep;
      if j + |sep| <= |s| {
        if j + m < |a| {
          assert s[j + m] == a[j + m];
        } else {
          assert s[j + m] == sep[..m][j + m - |a|];
        }
        assert s[j..j + |sep|][m] == s[j + m] != sep[m];
      }
    }
  }

  /** A string lacking one of the separator's characters does not contain
      the separator. */
  lemma NoOccurrence(s: string, sep: string, m: nat)
    requires m < |sep| && sep[m] !in s
    ensures forall j :: 0 <= j ==> !OccursAt(s, sep, j)
  {
    forall j | 0 <= j ensures !OccursAt(s, sep, j) {
      if j + |sep| <= |s| {
        assert s[j..j + |sep|][m] == s[j + m] != sep[m];
      }
    }
  }

  lemma {:induction false} CharNotInJoin(parts: seq<string>, sep: string, c: char)
    requires |parts| >= 1 && c !in sep
    requires forall k :: 0 <= k < |parts| ==> c !in parts[k]
    decreases |parts|
    ensures c !in Join(parts, sep)
  {
    if |parts| > 1 {
      CharNotInJoin(parts[1..], sep, c);
    }
  }

  /** Joining pieces that lack a one-character separator and splitting
      again gives the pieces back. */
  lemma {:induction false} SplitJoin(parts: seq<string>, sep: string)
    requires |sep| == 1 && |parts| >= 1
    requires forall k :: 0 <= k < |parts| ==> sep[0] !in parts[k]
    decreases |parts|
    ensures Split(Join(parts, sep), sep) == parts
  {
    NoEarlyOccurrence(parts[0], sep, 0);
    if |parts| == 1 {
      NoOccurrence(parts[0], sep, 0);
      SplitSingle(parts[0], sep);
    } else {
      var tail := parts[1..];
      assert forall k :: 0 <= k < |tail| ==> sep[0] !in tail[k] by {
        forall k | 0 <= k < |tail| ensures sep[0] !in tail[k] {
          assert tail[k] == parts[k + 1];
        }
      }
      SplitJoin(tail, sep);
      var rest := Join(tail, sep);
      assert Join(parts, sep) == parts[0] + sep + rest;
      SplitFirst(parts[0], sep, rest);
      assert parts == [parts[0]] + tail;
    }
  }

  // ---------------------------------------------------------------------
  // Keybind::from

  datatype SpecialKey = ModKey | ShiftKey | ControlKey | AltKey

  datatype Keybind = Keybind(specialKey: Option<SpecialKey>, keys: seq<string>, command: string)

  /** The letter each special key is written as. */
  function Letter(k: SpecialKey): (s: string)
    ensures |s| == 1
  {
    match k
    case ModKey => "M"
    case ShiftKey => "S"
    case ControlKey => "C"
    case AltKey => "A"
  }

  /** The special key a first segment names, if any. */
  function SpecialKeyOf(name: string): (r: Option<SpecialKey>)
    ensures r.Some? <==> name in {"M", "S", "C", "A"}
    ensures r.Some? ==> Letter(r.value) == name
  {
    if name == "M" then Some(ModKey)
    else if name == "S" then Some(ShiftKey)
    else if name == "C" then Some(ControlKey)
    else if name == "A" then Some(AltKey)
    else None
  }

  lemma SpecialKeyOfLetter(k: SpecialKey)
    ensures SpecialKeyOf(Letter(k)) == Some(k)
  {
  }

  /** A special key's written name reads back as that key; the empty
      name reads as none. */
  lemma SpecialKeyOfName(k: Option<SpecialKey>)
    ensures SpecialKeyOf(NameOf(k)) == k
  {
    if k.Some? {
      SpecialKeyOfLetter(k.value);
    }
  }

  const CommandSep: string := " | "
  const KeySep: string := "-"

  /** The input holds a command part; without one, parsing panics. */
  predicate HasCommand(s: string) {
    |Split(s, CommandSep)| >= 2
  }

  lemma {:induction false} HasCommandIff(s: string)
    ensures HasCommand(s) <==> exists j :: OccursAt(s, CommandSep, j)
  {
    match Find(s, CommandSep)
    case None =>
    case Some(i) =>
  }

  /** Keybind::from: the text before the first " | " holds the keys, the
      text between the first and the second " | " is the command, and the
      keys part is split at '-', its first segment naming the special key. */
  function ParseKeybind(s: string): (r: Keybind)
    requires HasCommand(s)
    ensures exists name ::
      && '-' !in name && r.specialKey == SpecialKeyOf(name)
      && Join([name] + r.keys, KeySep) == Split(s, CommandSep)[0]
    ensures forall k :: 0 <= k < |r.keys| ==> '-' !in r.keys[k]
    ensures r.command == Split(s, CommandSep)[1]
    ensures forall j :: 0 <= j ==> !OccursAt(r.command, CommandSep, j)
  {
    var parts := Split(s, CommandSep);
    var segments := Split(parts[0], KeySep);
    JoinSplit(parts[0], KeySep);
    SplitPiecesFree(parts[0], KeySep);
    SplitPiecesFree(s, CommandSep);
    assert forall k :: 0 <= k < |segments| ==> '-' !in segments[k] by {
      forall k, j | 0 <= k < |segments| && 0 <= j < |segments[k]| ensures segments[k][j] != '-' {
        assert segments[k][j..j + 1] == [segments[k][j]];
        assert !OccursAt(segments[k], KeySep, j);
      }
    }
    assert segments == [segments[0]] + segments[1..];
    Keybind(SpecialKeyOf(segments[0]), segments[1..], parts[1])
  }

  /** How a special key is written: its letter, or nothing. */
  function NameOf(k: Option<SpecialKey>): string {
    match k
    case Some(key) => Letter(key)
    case None => ""
  }

  /** The keybind string a Keybind value is written as. */
  function FormatKeybind(kb: Keybind): string {
    Join([NameOf(kb.specialKey)] + kb.keys, KeySep) + CommandSep + kb.command
  }

  /** Keys without '-' or '|' and a command without '|'. */
  predicate WellFormed(kb: Keybind) {
    && (forall k :: 0 <= k < |kb.keys| ==> '-' !in kb.keys[k] && '|' !in kb.keys[k])
    && '|' !in kb.command
  }

  /** What ParseKeybind builds, piece by piece. */
  lemma ParsePieces(s: string, keysPart: string, command: string, name: string, keys: seq<string>)
    requires |Split(s, CommandSep)| >= 2
    requires Split(s, CommandSep)[0] == keysPart && Split(s, CommandSep)[1] == command
    requires Split(keysPart, KeySep) == [name] + keys
    ensures HasCommand(s) && ParseKeybind(s) == Keybind(SpecialKeyOf(name), keys, command)
  {
    assert ([name] + keys)[1..] == keys;
  }

  /** A keys part and a command without '|' split at " | " into exactly
      those two. */
  lemma SplitCommand(keysPart: string, command: string)
    requires '|' !in keysPart && '|' !in command
    ensures Split(keysPart + CommandSep + command, CommandSep) == [keysPart, command]
  {
    assert CommandSep[1] == '|' && CommandSep[..1] == " ";
    NoEarlyOccurrence(keysPart, CommandSep, 1);
    SplitFirst(keysPart, CommandSep, command);
    NoOccurrence(command, CommandSep, 1);
    SplitSingle(command, CommandSep);
  }

  /** The segments of a well-formed keybind contain neither '-' nor '|'. */
  lemma SegmentsFree(kb: Keybind)
    requires WellFormed(kb)
    ensures var parts := [NameOf(kb.specialKey)] + kb.keys;
      forall k :: 0 <= k < |parts| ==> '-' !in parts[k] && '|' !in parts[k]
  {
    var parts := [NameOf(kb.specialKey)] + kb.keys;
    forall k | 0 <= k < |parts| ensures '-' !in parts[k] && '|' !in parts[k] {
      if k > 0 {
        assert parts[k] == kb.keys[k - 1];
      }
    }
  }

  /** A written keybind splits back into its command and its segments. */
  lemma FormatSplits(kb: Keybind)
    requires WellFormed(kb)
    ensures var parts := [NameOf(kb.specialKey)] + kb.keys;
      && Split(FormatKeybind(kb), CommandSep) == [Join(parts, KeySep), kb.command]
      && Split(Join(parts, KeySep), KeySep) == parts
  {
    var parts := [NameOf(kb.specialKey)] + kb.keys;
    SegmentsFree(kb);
    CharNotInJoin(parts, KeySep, '|');
    SplitCommand(Join(parts, KeySep), kb.command);
    SplitJoin(parts, KeySep);
  }

  /** Parsing a written keybind gives it back. */
  lemma ParseFormat(kb: Keybind)
    requires WellFormed(kb)
    ensures HasCommand(FormatKeybind(kb)) && ParseKeybind(FormatKeybind(kb)) == kb
  {
    var name := NameOf(kb.specialKey);
    var s := FormatKeybind(kb);
    FormatSplits(kb);
    SpecialKeyOfName(kb.specialKey);
    ParsePieces(s, Join([name] + kb.keys, KeySep), kb.command, name, kb.keys);
  }

  /** The first '-' segment is always taken as the special key, even when
      it names none: "x | kitty" has no keys at all. */
  lemma FirstSegmentConsumed(name: string, command: string)
    requires '-' !in name && '|' !in name && '|' !in command
    ensures HasCommand(name + CommandSep + command)
    ensures ParseKeybind(name + CommandSep + command) == Keybind(SpecialKeyOf(name), [], command)
  {
    SplitCommand(name, command);
    NoOccurrence(name, KeySep, 0);
    SplitSingle(name, KeySep);
  }

  /** Only the text between the first and the second " | " becomes the
      command; whatever follows a second " | " is dropped. */
  lemma ExtraSegmentsIgnored(keysPart: string, command: string, rest: string)
    requires '|' !in keysPart && '|' !in command
    ensures HasCommand(keysPart + CommandSep + command + CommandSep + rest)
    ensures ParseKeybind(keysPart + CommandSep + command + CommandSep + rest).command == command
  {
    var tail := command + CommandSep + rest;
    var s := keysPart + CommandSep + command + CommandSep + rest;
    assert s == keysPart + CommandSep + tail;
    assert CommandSep[1] == '|' && CommandSep[..1] == " ";
    NoEarlyOccurrence(keysPart, CommandSep, 1);
    NoEarlyOccurrence(command, CommandSep, 1);
    SplitFirst(command, CommandSep, rest);
    SplitFirst(keysPart, CommandSep, tail);
    assert Split(s, CommandSep) == [keysPart, command] + Split(rest, CommandSep);
  }

  /** The unit tests of Keybind::from. */
  lemma KeybindModX()
    ensures HasCommand("M-x | kitty") && ParseKeybind("M-x | kitty") == Keybind(Some(ModKey), ["x"], "kitty")
  {
    var kb := Keybind(Some(ModKey), ["x"], "kitty");
    assert Join(["M", "x"], KeySep) == "M-x";
    assert FormatKeybind(kb) == "M-x | kitty";
    ParseFormat(kb);
  }

  lemma KeybindMultiKey()
    ensures HasCommand("M-x-y | kitty") && ParseKeybind("M-x-y | kitty") == Keybind(Some(ModKey), ["x", "y"], "kitty")
  {
    var kb := Keybind(Some(ModKey), ["x", "y"], "kitty");
    assert Join(["y"], KeySep) == "y";
    assert Join(["x", "y"], KeySep) == "x-y";
    assert Join(["M", "x", "y"], KeySep) == "M-x-y";
    assert FormatKeybind(kb) == "M-x-y | kitty";
    ParseFormat(kb);
  }

  lemma KeybindSpecialKeys(k: SpecialKey)
    ensures HasCommand(Letter(k) + "-x | kitty") && ParseKeybind(Letter(k) + "-x | kitty").specialKey == Some(k)
  {
    var kb := Keybind(Some(k), ["x"], "kitty");
    assert Join([Letter(k), "x"], KeySep) == Letter(k) + "-x";
    assert FormatKeybind(kb) == Letter(k) + "-x | kitty";
    ParseFormat(kb);
  }

  // ---------------------------------------------------------------------
  // keys_to_keycodes

  type Byte = b: int | 0 <= b < 0x100

  const U32Modulus: int := 0x1_0000_0000

  type U32 = x: int | 0 <= x < 0x1_0000_0000

  /** The UTF-8 encoding of one character (`str::as_bytes`). */
  function Utf8(c: char): (bs: seq<Byte>)
    ensures 1 <= |bs| <= 4
    ensures c as int < 0x80 <==> |bs| == 1
    ensures c as int < 0x80 ==> bs == [c as int]
  {
    var n := c as int;
    if n < 0x80 then [n]
    else if n < 0x800 then [0xC0 + n / 0x40, 0x80 + n % 0x40]
    else if n < 0x1_0000 then [0xE0 + n / 0x1000, 0x80 + (n / 0x40) % 0x40, 0x80 + n % 0x40]
    else [0xF0 + n / 0x4_0000, 0x80 + (n / 0x1000) % 0x40, 0x80 + (n / 0x40) % 0x40, 0x80 + n % 0x40]
  }

  /** The code point a UTF-8 sequence of one to four bytes encodes. */
  function DecodeUtf8(bs: seq<Byte>): int
    requires 1 <= |bs| <= 4
  {
    var b: seq<int> := bs;
    if |b| == 1 then b[0]
    else if |b| == 2 then (b[0] - 0xC0) * 0x40 + (b[1] - 0x80)
    else if |b| == 3 then ((b[0] - 0xE0) * 0x40 + (b[1] - 0x80)) * 0x40 + (b[2] - 0x80)
    else (((b[0] - 0xF0) * 0x40 + (b[1] - 0x80)) * 0x40 + (b[2] - 0x80)) * 0x40 + (b[3] - 0x80)
  }

  /** Decoding an encoded character gives it back. */
  lemma Utf8RoundTrip(c: char)
    ensures DecodeUtf8(Utf8(c)) == c as int
  {
    var n := c as int;
    if n >= 0x80 {
      assert n == (n / 0x40) * 0x40 + n % 0x40;
      assert n / 0x40 == (n / 0x1000) * 0x40 + (n / 0x40) % 0x40;
      if n >= 0x1_0000 {
        assert n / 0x1000 == (n / 0x4_0000) * 0x40 + (n / 0x1000) % 0x40;
      }
    }
  }

  /** `str::as_bytes`. */
  function Bytes(s: string): (bs: seq<Byte>)
    decreases |s|
    ensures |bs| >= |s|
  {
    if s == [] then [] else Bytes(s[..|s| - 1]) + Utf8(s[|s| - 1])
  }

  function Sum(bs: seq<Byte>): nat
    decreases |bs|
  {
    if bs == [] then 0 else Sum(bs[..|bs| - 1]) + bs[|bs| - 1]
  }

  /** Unicode White_Space, the characters `str::trim` removes. */
  predicate IsWhitespace(c: char) {
    || '\t' <= c <= '\r' || c == ' ' || c == '\U{85}' || c == '\U{A0}' || c == '\U{1680}'
    || '\U{2000}' <= c <= '\U{200A}' || c == '\U{2028}' || c == '\U{2029}' || c == '\U{202F}'
    || c == '\U{205F}' || c == '\U{3000}'
  }

  function TrimStart(s: string): (r: string)
    decreases |s|
    ensures |r| <= |s| && r == s[|s| - |r|..]
    ensures forall k :: 0 <= k < |s| - |r| ==> IsWhitespace(s[k])
    ensures r != [] ==> !IsWhitespace(r[0])
  {
    if s != [] && IsWhitespace(s[0]) then TrimStart(s[1..]) else s
  }

  function TrimEnd(s: string): (r: string)
    decreases |s|
    ensures |r| <= |s| && r == s[..|r|]
    ensures forall k :: |r| <= k < |s| ==> IsWhitespace(s[k])
    ensures r != [] ==> !IsWhitespace(r[|r| - 1])
  {
    if s != [] && IsWhitespace(s[|s| - 1]) then TrimEnd(s[..|s| - 1]) else s
  }

  /** `str::trim`: neither end of the result is whitespace. */
  function Trim(s: string): (r: string)
    ensures r != [] ==> !IsWhitespace(r[0]) && !IsWhitespace(r[|r| - 1])
  {
    var t := TrimStart(s);
    var r := TrimEnd(t);
    assert r != [] ==> r[0] == t[0];
    r
  }

  /** Trimming keeps a contiguous slice of the input and removes only
      whitespace around it. */
  lemma TrimSlice(s: string)
    ensures var i := |s| - |TrimStart(s)|; var r := Trim(s);
      && i + |r| <= |s| && r == s[i..i + |r|]
      && (forall k :: 0 <= k < i ==> IsWhitespace(s[k]))
      && (forall k :: i + |r| <= k < |s| ==> IsWhitespace(s[k]))
  {
    var t := TrimStart(s);
    var r := TrimEnd(t);
    assert Trim(s) == r;
    MiddleSlice(s, t, r, IsWhitespace);
  }

  /** A prefix `r` of a suffix `t` of `s` is a slice of `s`; a property of
      what precedes `t` and of what follows `r` in `t` holds of what
      surrounds the slice in `s`. */
  lemma MiddleSlice(s: string, t: string, r: string, p: char -> bool)
    requires |t| <= |s| && t == s[|s| - |t|..] && |r| <= |t| && r == t[..|r|]
    requires forall k :: 0 <= k < |s| - |t| ==> p(s[k])
    requires forall k :: |r| <= k < |t| ==> p(t[k])
    ensures var i := |s| - |t|;
      && i + |r| <= |s| && r == s[i..i + |r|]
      && (forall k :: 0 <= k < i ==> p(s[k]))
      && (forall k :: i + |r| <= k < |s| ==> p(s[k]))
  {
    var i := |s| - |t|;
    forall k | i + |r| <= k < |s| ensures p(s[k]) {
      assert s[k] == t[k - i];
    }
  }

  /** The code of one key: the sum, as a wrapping u32, of the bytes of the
      trimmed, ASCII-upper-cased key. */
  function KeyCode(key: string): U32 {
    Sum(Bytes(ToUpper(Trim(key)))) % U32Modulus
  }

  lemma WrappingAdd(a: nat, b: nat)
    ensures (a % U32Modulus + b) % U32Modulus == (a + b) % U32Modulus
  {
  }

  /** One code per key, in order. */
  function KeyCodes(keys: seq<string>): seq<U32>
    decreases |keys|
  {
    if keys == [] then [] else KeyCodes(keys[..|keys| - 1]) + [KeyCode(keys[|keys| - 1])]
  }

  /** The codes of a longer prefix extend those of the shorter one. */
  lemma KeyCodesPrefix(keys: seq<string>, i: nat)
    requires i < |keys|
    ensures KeyCodes(keys[..i + 1]) == KeyCodes(keys[..i]) + [KeyCode(keys[i])]
  {
    assert keys[..i + 1][..i] == keys[..i];
  }

  /** The i-th code is the code of the i-th key. */
  lemma {:induction false} KeyCodesAt(keys: seq<string>, i: nat)
    requires i < |keys|
    decreases |keys|
    ensures |KeyCodes(keys)| == |keys| && KeyCodes(keys)[i] == KeyCode(keys[i])
  {
    if i < |keys| - 1 {
      KeyCodesAt(keys[..|keys| - 1], i);
    } else if |keys| > 1 {
      KeyCodesAt(keys[..|keys| - 1], 0);
    }
  }

  /** The inner loop of keys_to_keycodes: add up the bytes as a u32. */
  method SumBytes(bytes: seq<Byte>) returns (keyValue: U32)
    ensures keyValue == Sum(bytes) % U32Modulus
  {
    keyValue := 0;
    for k := 0 to |bytes|
      invariant keyValue == Sum(bytes[..k]) % U32Modulus
    {
      assert bytes[..k + 1][..k] == bytes[..k];
      WrappingAdd(Sum(bytes[..k]), bytes[k]);
      keyValue := (keyValue + bytes[k]) % U32Modulus;
    }
    assert bytes[..|bytes|] == bytes;
  }

  /** keys_to_keycodes. */
  method KeysToKeycodes(keys: seq<string>) returns (codes: seq<U32>)
    ensures codes == KeyCodes(keys)
  {
    codes := [];
    for i := 0 to |keys|
      invariant codes == KeyCodes(keys[..i])
    {
      var key := keys[i];
      var keyValue := SumBytes(Bytes(ToUpper(Trim(key))));
      assert keyValue == KeyCode(key);
      KeyCodesPrefix(keys, i);
      codes := codes + [keyValue];
    }
    assert keys[..|keys|] == keys;
  }

  // ---------------------------------------------------------------------
  // Properties of the key codes

  /** Case mapping never turns whitespace into something else or back. */
  lemma CaseKeepsWhitespace(c: char)
    ensures IsWhitespace(LowerChar(c)) == IsWhitespace(c)
  {
  }

  lemma {:induction false} TrimStartLower(s: string)
    decreases |s|
    ensures TrimStart(ToLower(s)) == ToLower(TrimStart(s))
  {
    if s != [] {
      CaseKeepsWhitespace(s[0]);
      if IsWhitespace(s[0]) {
        assert ToLower(s)[1..] == ToLower(s[1..]);
        TrimStartLower(s[1..]);
      }
    }
  }

  lemma {:induction false} TrimEndLower(s: string)
    decreases |s|
    ensures TrimEnd(ToLower(s)) == ToLower(TrimEnd(s))
  {
    if s != [] {
      CaseKeepsWhitespace(s[|s| - 1]);
      if IsWhitespace(s[|s| - 1]) {
        assert ToLower(s)[..|s| - 1] == ToLower(s[..|s| - 1]);
        TrimEndLower(s[..|s| - 1]);
      }
    }
  }

  /** A key's code does not depend on the case of its ASCII letters. */
  lemma KeyCodeIgnoresCase(key: string)
    ensures KeyCode(ToLower(key)) == KeyCode(key)
  {
    TrimStartLower(key);
    TrimEndLower(TrimStart(key));
    CaseIdempotent(Trim(key));
  }

  /** A key of one ASCII character that is not whitespace is its own
      trimmed form, and its code is the character's code point. */
  lemma KeyCodeOfAscii(c: char)
    requires c as int < 0x80 && !IsWhitespace(c)
    ensures KeyCode([c]) == UpperChar(c) as int
  {
    assert UpperChar(c) as int < 0x80 by {
      UpperKeepsAscii(c);
    }
    assert ToUpper(Trim([c])) == [UpperChar(c)] by {
      TrimSingle(c);
    }
    KeyCodeOfUpper([c], UpperChar(c));
  }

  /** An ASCII character is one byte, its code point. */
  lemma AsciiBytes(c: char)
    requires c as int < 0x80
    ensures Bytes([c]) == [c as int]
  {
    assert [c][..0] == [];
  }

  lemma SumSingle(b: Byte)
    ensures Sum([b]) == b
  {
    assert [b][..0] == [];
  }

  lemma SmallMod(n: nat)
    requires n < U32Modulus
    ensures n % U32Modulus == n
  {
  }

  /** A key that trims and upper-cases to one ASCII character has that
      character's code point as its code. */
  lemma KeyCodeOfUpper(key: string, u: char)
    requires ToUpper(Trim(key)) == [u] && u as int < 0x80
    ensures KeyCode(key) == u as int
  {
    AsciiBytes(u);
    SumSingle(u as int);
    SmallMod(u as int);
  }

  /** Upper-casing an ASCII character gives an ASCII character. */
  lemma UpperKeepsAscii(c: char)
    requires c as int < 0x80
    ensures UpperChar(c) as int < 0x80
  {
  }

  /** A single character that is not whitespace is left alone by trim. */
  lemma TrimSingle(c: char)
    requires !IsWhitespace(c)
    ensures Trim([c]) == [c]
  {
    assert TrimStart([c]) == [c];
    assert TrimEnd([c]) == [c];
  }

  /** A lower-case letter and its upper-case form have the same code, the
      code point of the upper-case letter (its keysym). */
  lemma KeyCodeOfLetter(c: char)
    requires 'a' <= c <= 'z'
    ensures KeyCode([c]) == c as int - 32 == KeyCode([UpperChar(c)])
  {
    assert !IsWhitespace(c) && !IsWhitespace(UpperChar(c));
    KeyCodeOfAscii(c);
    KeyCodeOfAscii(UpperChar(c));
  }

  /** keysyms::KEY_X and keysyms::KEY_Y. */
  const KeyX: U32 := 0x58
  const KeyY: U32 := 0x59

  /** The unit tests of keys_to_keycodes. */
  lemma KeycodeExamples()
    ensures KeyCodes(["x"]) == [KeyX]
    ensures KeyCodes(["x", "y"]) == [KeyX, KeyY]
  {
    KeyCodeOfLetter('x');
    KeyCodeOfLetter('y');
    KeyCodesAt(["x"], 0);
    KeyCodesAt(["x", "y"], 0);
    KeyCodesAt(["x", "y"], 1);
  }

  /** The keys of a parsed keybind map to their keysyms. */
  lemma ParsedKeycodes()
    ensures KeyCodes(ParseKeybind("M-x | kitty").keys) == [KeyX]
  {
    KeybindModX();
    KeycodeExamples();
  }
}
