/** The provider module's own logic (src/ddep/mod.rs): reading the one-time
    passphrase out of the provider's login mail, and the account configuration
    with its conversions to and from the API client.

    The passphrase is found by the pattern
      one-time passphrase.*?\r\n\r\n([\w\s-]+)\r\n\r\n
    Here it is scanned for by hand (`Scan`) and specified by the match the
    regex engine reports (`LeftmostFirst`): the leftmost start, then the shortest
    gap after the marker, then the longest capture. `\w` and `\s` are taken as
    their ASCII members. */
module Ddep {
  import opened Wrappers
  import opened Text
  import opened Config
  import DdepApi

  /** The text the pattern starts with. */
  const Marker: string := "one-time passphrase"

  /** The blank line (CR LF CR LF) that opens and closes the passphrase block. */
  const BlankLine: string := "\r\n\r\n"

  /** `\w`, restricted to ASCII: letters, digits and '_'. */
  predicate IsWordChar(c: char)
  {
    ('a' <= c <= 'z') || ('A' <= c <= 'Z') || ('0' <= c <= '9') || c == '_'
  }

  /** `\s`, restricted to ASCII: space, tab, LF, VT, FF and CR. */
  predicate IsSpaceChar(c: char)
  {
    c == ' ' || c == '\t' || c == '\n' || c == '\U{000B}' || c == '\U{000C}' || c == '\r'
  }

  /** The class `[\w\s-]` of the captured passphrase. */
  predicate InPassphraseClass(c: char)
  {
    IsWordChar(c) || IsSpaceChar(c) || c == '-'
  }

  /** Every character in `s[from..to]` belongs to the passphrase class. */
  predicate ClassRun(s: string, from: nat, to: nat)
    requires to <= |s|
  {
    forall j :: from <= j < to ==> InPassphraseClass(s[j])
  }

  /** No character in `s[from..to]` is a line feed, as `.` requires. */
  predicate NoNewline(s: string, from: nat, to: nat)
    requires to <= |s|
  {
    forall j :: from <= j < to ==> s[j] != '\n'
  }

  /** `([\w\s-]+)\r\n\r\n` matches at `p` with a capture of `len` characters. */
  predicate CaptureAt(s: string, p: nat, len: nat)
  {
    && len >= 1
    && At(s, p + len, BlankLine)
    && ClassRun(s, p, p + len)
  }

  /** A match: where the marker starts, how long the lazy gap after it is, and
      how long the capture is. */
  datatype Span = Span(start: nat, gap: nat, len: nat)
  {
    function GapStart(): nat { start + |Marker| }
    function CaptureStart(): nat { start + |Marker| + gap + |BlankLine| }
  }

  /** The whole pattern matches with the marker at `start`, a gap of `gap`
      characters and a capture of `len` characters. */
  predicate MatchAt(s: string, start: nat, gap: nat, len: nat)
  {
    && At(s, start, Marker)
    && At(s, start + |Marker| + gap, BlankLine)
    && NoNewline(s, start + |Marker|, start + |Marker| + gap)
    && CaptureAt(s, start + |Marker| + gap + |BlankLine|, len)
  }

  /** The match the regex engine reports: no match starts earlier; at its start
      no shorter gap matches; with its gap no longer capture matches. */
  ghost predicate LeftmostFirst(s: string, m: Span)
  {
    && MatchAt(s, m.start, m.gap, m.len)
    && (forall st: nat, g: nat, l: nat :: st < m.start ==> !MatchAt(s, st, g, l))
    && (forall g: nat, l: nat :: g < m.gap ==> !MatchAt(s, m.start, g, l))
    && (forall l: nat :: l > m.len ==> !MatchAt(s, m.start, m.gap, l))
  }

  /** Where the run of passphrase characters starting at `p` ends. */
  function RunEnd(s: string, p: nat): (e: nat)
    requires p <= |s|
    ensures p <= e <= |s|
    ensures ClassRun(s, p, e)
    ensures e < |s| ==> !InPassphraseClass(s[e])
    decreases |s| - p
  {
    if p == |s| || !InPassphraseClass(s[p]) then p else RunEnd(s, p + 1)
  }

  /** The longest capture of at most `c` characters at `p` that a blank line
      follows, found by giving back one character at a time. */
  function Backtrack(s: string, p: nat, c: nat): (r: Option<nat>)
    requires p + c <= |s|
    requires ClassRun(s, p, p + c)
    ensures r.Some? ==> 1 <= r.value <= c && CaptureAt(s, p, r.value)
    ensures r.Some? ==> forall l: nat :: r.value < l <= c ==> !CaptureAt(s, p, l)
    ensures r.None? ==> forall l: nat :: l <= c ==> !CaptureAt(s, p, l)
    decreases c
  {
    if c == 0 then None
    else if At(s, p + c, BlankLine) then Some(c)
    else Backtrack(s, p, c - 1)
  }

  /** The greedy capture at `p`: the longest one a blank line follows. */
  function Capture(s: string, p: nat): (r: Option<nat>)
    requires p <= |s|
    ensures r.Some? ==> CaptureAt(s, p, r.value)
    ensures r.Some? ==> forall l: nat :: l > r.value ==> !CaptureAt(s, p, l)
    ensures r.None? ==> forall l: nat :: !CaptureAt(s, p, l)
  {
    var e := RunEnd(s, p);
    assert forall l: nat :: l > e - p ==> !CaptureAt(s, p, l) by {
      forall l | l > e - p ensures !CaptureAt(s, p, l) {
        if e < |s| && p + l <= |s| { assert !InPassphraseClass(s[e]); assert !ClassRun(s, p, p + l); }
      }
    }
    Backtrack(s, p, e - p)
  }

  /** Tries the lazy gap at lengths `gap`, `gap + 1`, ... after the marker at
      `start`, as long as the gap stays on the marker's line. */
  function TryGap(s: string, start: nat, gap: nat): (r: Option<Span>)
    requires At(s, start, Marker)
    requires start + |Marker| + gap <= |s|
    requires NoNewline(s, start + |Marker|, start + |Marker| + gap)
    ensures r.Some? ==> r.value.start == start && gap <= r.value.gap
    ensures r.Some? ==> MatchAt(s, start, r.value.gap, r.value.len)
    ensures r.Some? ==> forall g: nat, l: nat :: gap <= g < r.value.gap ==> !MatchAt(s, start, g, l)
    ensures r.Some? ==> forall l: nat :: l > r.value.len ==> !MatchAt(s, start, r.value.gap, l)
    ensures r.None? ==> forall g: nat, l: nat :: gap <= g ==> !MatchAt(s, start, g, l)
    decreases |s| - (start + |Marker| + gap)
  {
    var q := start + |Marker| + gap;
    var cap := if At(s, q, BlankLine) then Capture(s, q + |BlankLine|) else None;
    if cap.Some? then
      GapMatches(s, start, gap, cap.value);
      Some(Span(start, gap, cap.value))
    else
      NoMatchWithGap(s, start, gap);
      if q < |s| && s[q] != '\n' then
        assert NoNewline(s, start + |Marker|, q + 1);
        var r := TryGap(s, start, gap + 1);
        LongerGaps(s, start, gap, r);
        r
      else
        GapEndsLine(s, start, gap);
        None
  }

  /** A capture after a blank line at the end of the gap completes the match,
      and no longer capture would. */
  lemma GapMatches(s: string, start: nat, gap: nat, len: nat)
    requires At(s, start, Marker)
    requires start + |Marker| + gap <= |s|
    requires NoNewline(s, start + |Marker|, start + |Marker| + gap)
    requires var q := start + |Marker| + gap;
      At(s, q, BlankLine) && Capture(s, q + |BlankLine|) == Some(len)
    ensures MatchAt(s, start, gap, len)
    ensures forall l: nat :: l > len ==> !MatchAt(s, start, gap, l)
  {
  }

  /** When no capture follows a blank line at the end of the gap, that gap fails. */
  lemma NoMatchWithGap(s: string, start: nat, gap: nat)
    requires start + |Marker| + gap <= |s|
    requires var q := start + |Marker| + gap;
      !(At(s, q, BlankLine) && Capture(s, q + |BlankLine|).Some?)
    ensures forall l: nat :: !MatchAt(s, start, gap, l)
  {
  }

  /** What the longer gaps yield, together with the failure of `gap` itself. */
  lemma LongerGaps(s: string, start: nat, gap: nat, r: Option<Span>)
    requires forall l: nat :: !MatchAt(s, start, gap, l)
    requires r.Some? ==> gap + 1 <= r.value.gap
    requires r.Some? ==> forall g: nat, l: nat :: gap + 1 <= g < r.value.gap ==> !MatchAt(s, start, g, l)
    requires r.None? ==> forall g: nat, l: nat :: gap + 1 <= g ==> !MatchAt(s, start, g, l)
    ensures r.Some? ==> forall g: nat, l: nat :: gap <= g < r.value.gap ==> !MatchAt(s, start, g, l)
    ensures r.None? ==> forall g: nat, l: nat :: gap <= g ==> !MatchAt(s, start, g, l)
  {
  }

  /** The gap cannot grow past the end of the text or over a line feed. */
  lemma GapEndsLine(s: string, start: nat, gap: nat)
    requires start + |Marker| + gap <= |s|
    requires var q := start + |Marker| + gap; q == |s| || s[q] == '\n'
    ensures forall g: nat, l: nat :: gap < g ==> !MatchAt(s, start, g, l)
  {
    var q := start + |Marker| + gap;
    forall g: nat, l: nat | gap < g ensures !MatchAt(s, start, g, l) {
      if q < |s| && start + |Marker| + g <= |s| {
        assert !NoNewline(s, start + |Marker|, start + |Marker| + g);
      }
    }
  }

  /** The first match starting at `from` or later. */
  function Scan(s: string, from: nat): (r: Option<Span>)
    ensures r.Some? ==> from <= r.value.start && MatchAt(s, r.value.start, r.value.gap, r.value.len)
    ensures r.Some? ==> forall st: nat, g: nat, l: nat :: from <= st < r.value.start ==> !MatchAt(s, st, g, l)
    ensures r.Some? ==> forall g: nat, l: nat :: g < r.value.gap ==> !MatchAt(s, r.value.start, g, l)
    ensures r.Some? ==> forall l: nat :: l > r.value.len ==> !MatchAt(s, r.value.start, r.value.gap, l)
    ensures r.None? ==> forall st: nat, g: nat, l: nat :: from <= st ==> !MatchAt(s, st, g, l)
    decreases |s| - from
  {
    if from + |Marker| > |s| then
      NoRoomForMarker(s, from);
      None
    else
      var first := if At(s, from, Marker) then TryGap(s, from, 0) else None;
      if first.Some? then first
      else
        var r := Scan(s, from + 1);
        LaterStarts(s, from, r);
        r
  }

  /** No match starts where the marker no longer fits. */
  lemma NoRoomForMarker(s: string, from: nat)
    requires from + |Marker| > |s|
    ensures forall st: nat, g: nat, l: nat :: from <= st ==> !MatchAt(s, st, g, l)
  {
  }

  /** What the later starts yield, together with the failure of `from` itself. */
  lemma LaterStarts(s: string, from: nat, r: Option<Span>)
    requires forall g: nat, l: nat :: !MatchAt(s, from, g, l)
    requires r.Some? ==> from + 1 <= r.value.start
    requires r.Some? ==> forall st: nat, g: nat, l: nat :: from + 1 <= st < r.value.start ==> !MatchAt(s, st, g, l)
    requires r.None? ==> forall st: nat, g: nat, l: nat :: from + 1 <= st ==> !MatchAt(s, st, g, l)
    ensures r.Some? ==> forall st: nat, g: nat, l: nat :: from <= st < r.value.start ==> !MatchAt(s, st, g, l)
    ensures r.None? ==> forall st: nat, g: nat, l: nat :: from <= st ==> !MatchAt(s, st, g, l)
  {
  }

  /** `get_otp_via_mail`: the passphrase block of the match the regex engine
      reports, as it stands in the mail; none when the pattern does not match. */
  function GetOtpViaMail(mail: string): (r: Option<string>)
    ensures r.Some? ==> exists m :: LeftmostFirst(mail, m) && r.value == mail[m.CaptureStart()..m.CaptureStart() + m.len]
    ensures r.None? ==> forall st: nat, g: nat, l: nat :: !MatchAt(mail, st, g, l)
  {
    match Scan(mail, 0)
    case Some(m) =>
      assert LeftmostFirst(mail, m);
      Some(mail[m.CaptureStart()..m.CaptureStart() + m.len])
    case None => None
  }


  /** The marker without its last character: an occurrence of the marker that starts
      inside `pre` lies inside `pre + MarkerStem`. */
  const MarkerStem: string := Marker[..|Marker| - 1]

  /** The parts of a mail body laid out as the pattern expects them. */
  function Assemble(pre: string, gap: string, cap: string, tail: string, stop: char, rest: string): string
  {
    pre + Marker + gap + BlankLine + cap + BlankLine + tail + [stop] + rest
  }

  /** The laid-out parts match the pattern where the marker was put. */
  lemma AssembledMatch(pre: string, gap: string, cap: string, tail: string, stop: char, rest: string)
    requires '\n' !in gap
    requires |cap| >= 1 && forall c :: c in cap ==> InPassphraseClass(c)
    ensures MatchAt(Assemble(pre, gap, cap, tail, stop, rest), |pre|, |gap|, |cap|)
    ensures var p := |pre| + |Marker| + |gap| + |BlankLine|;
      Assemble(pre, gap, cap, tail, stop, rest)[p..p + |cap|] == cap
  {
    var s := Assemble(pre, gap, cap, tail, stop, rest);
    var st, q, p := |pre|, |pre| + |Marker| + |gap|, |pre| + |Marker| + |gap| + |BlankLine|;
    assert s[st..st + |Marker|] == Marker;
    assert s[q..q + |BlankLine|] == BlankLine;
    assert s[p..p + |cap|] == cap;
    assert s[p + |cap|..p + |cap| + |BlankLine|] == BlankLine;
    assert ClassRun(s, p, p + |cap|) by {
      forall j | p <= j < p + |cap| ensures InPassphraseClass(s[j]) {
        assert s[j] == cap[j - p];
      }
    }
    assert NoNewline(s, st + |Marker|, q) by {
      forall j | st + |Marker| <= j < q ensures s[j] != '\n' {
        assert s[j] == gap[j - st - |Marker|];
      }
    }
  }

  /** No match starts inside `pre` when `pre` does not complete the marker. */
  lemma AssembledNoEarlierStart(pre: string, gap: string, cap: string, tail: string, stop: char, rest: string, st: nat)
    requires forall i: nat :: !At(pre + MarkerStem, i, Marker)
    requires st < |pre|
    ensures !At(Assemble(pre, gap, cap, tail, stop, rest), st, Marker)
  {
    var s := Assemble(pre, gap, cap, tail, stop, rest);
    var pm := pre + MarkerStem;
    assert s[..|pm|] == pm;
    assert s[st..st + |Marker|] == pm[st..st + |Marker|];
    assert At(s, st, Marker) == At(pm, st, Marker);
  }

  /** The blank line cannot start earlier in a gap free of line feeds. */
  lemma AssembledNoShorterGap(pre: string, gap: string, cap: string, tail: string, stop: char, rest: string, g: nat)
    requires '\n' !in gap
    requires g < |gap|
    ensures !At(Assemble(pre, gap, cap, tail, stop, rest), |pre| + |Marker| + g, BlankLine)
  {
    var s := Assemble(pre, gap, cap, tail, stop, rest);
    var q := |pre| + |Marker| + g;
    if g + 1 < |gap| {
      assert s[q + 1] == gap[g + 1];
    } else {
      assert s[q + 1] == BlankLine[0];
    }
    NotAtByChar(s, q, BlankLine, 1);
  }

  /** The capture cannot reach past the closing blank line: on the line after it
      the passphrase characters stop before another blank line can begin. */
  lemma AssembledNoLongerCapture(pre: string, gap: string, cap: string, tail: string, stop: char, rest: string, l: nat)
    requires '\n' !in tail && !InPassphraseClass(stop)
    requires l > |cap|
    ensures !CaptureAt(Assemble(pre, gap, cap, tail, stop, rest), |pre| + |Marker| + |gap| + |BlankLine|, l)
  {
    var s := Assemble(pre, gap, cap, tail, stop, rest);
    var p := |pre| + |Marker| + |gap| + |BlankLine|;
    var e := p + |cap| + |BlankLine| + |tail|;
    assert s[e] == stop;
    if p + l > e {
      assert !InPassphraseClass(s[e]);
      if p + l <= |s| { assert !ClassRun(s, p, p + l); }
    } else if p + l + 3 < e {
      assert s[p + l + 3] == tail[p + l + 3 - (p + |cap| + |BlankLine|)];
      NotAtByChar(s, p + l, BlankLine, 3);
    } else {
      assert forall c :: c in BlankLine ==> InPassphraseClass(c);
      NotAtByChar(s, p + l, BlankLine, e - (p + l));
    }
  }

  /** A body made of a marker line whose text after the marker has no line break,
      a blank line, a block of passphrase characters and a blank line yields exactly
      that block, provided the marker does not occur earlier and the text after the
      block's closing blank line stops being passphrase text before its next line break. */
  lemma DelimitedBlockExtracted(pre: string, gap: string, cap: string, tail: string, stop: char, rest: string)
    requires forall i: nat :: !At(pre + MarkerStem, i, Marker)
    requires '\n' !in gap
    requires |cap| >= 1 && forall c :: c in cap ==> InPassphraseClass(c)
    requires '\n' !in tail && !InPassphraseClass(stop)
    ensures GetOtpViaMail(Assemble(pre, gap, cap, tail, stop, rest)) == Some(cap)
  {
    AssembledLeftmostFirst(pre, gap, cap, tail, stop, rest);
    CaptureDetermines(Assemble(pre, gap, cap, tail, stop, rest), Span(|pre|, |gap|, |cap|), cap);
  }

  /** The text the leftmost-first match captures is the result. */
  lemma CaptureDetermines(s: string, m: Span, cap: string)
    requires LeftmostFirst(s, m)
    requires s[m.CaptureStart()..m.CaptureStart() + m.len] == cap
    ensures GetOtpViaMail(s) == Some(cap)
  {
    LeftmostFirstDetermines(s, m);
  }

  /** The laid-out parts hold the match the regex engine reports, with its
      capture where `cap` was put. */
  lemma AssembledLeftmostFirst(pre: string, gap: string, cap: string, tail: string, stop: char, rest: string)
    requires forall i: nat :: !At(pre + MarkerStem, i, Marker)
    requires '\n' !in gap
    requires |cap| >= 1 && forall c :: c in cap ==> InPassphraseClass(c)
    requires '\n' !in tail && !InPassphraseClass(stop)
    ensures LeftmostFirst(Assemble(pre, gap, cap, tail, stop, rest), Span(|pre|, |gap|, |cap|))
    ensures var p := |pre| + |Marker| + |gap| + |BlankLine|;
      Assemble(pre, gap, cap, tail, stop, rest)[p..p + |cap|] == cap
  {
    var s := Assemble(pre, gap, cap, tail, stop, rest);
    var st := |pre|;
    AssembledMatch(pre, gap, cap, tail, stop, rest);
    AssembledNoEarlierStarts(pre, gap, cap, tail, stop, rest);
    AssembledNoShorterGaps(pre, gap, cap, tail, stop, rest);
    AssembledNoLongerCaptures(pre, gap, cap, tail, stop, rest);
  }

  lemma AssembledNoEarlierStarts(pre: string, gap: string, cap: string, tail: string, stop: char, rest: string)
    requires forall i: nat :: !At(pre + MarkerStem, i, Marker)
    ensures forall st: nat, g: nat, l: nat :: st < |pre| ==> !MatchAt(Assemble(pre, gap, cap, tail, stop, rest), st, g, l)
  {
    forall st: nat, g: nat, l: nat | st < |pre| ensures !MatchAt(Assemble(pre, gap, cap, tail, stop, rest), st, g, l) {
      AssembledNoEarlierStart(pre, gap, cap, tail, stop, rest, st);
    }
  }

  lemma AssembledNoShorterGaps(pre: string, gap: string, cap: string, tail: string, stop: char, rest: string)
    requires '\n' !in gap
    ensures forall g: nat, l: nat :: g < |gap| ==> !MatchAt(Assemble(pre, gap, cap, tail, stop, rest), |pre|, g, l)
  {
    forall g: nat, l: nat | g < |gap| ensures !MatchAt(Assemble(pre, gap, cap, tail, stop, rest), |pre|, g, l) {
      AssembledNoShorterGap(pre, gap, cap, tail, stop, rest, g);
    }
  }

  lemma AssembledNoLongerCaptures(pre: string, gap: string, cap: string, tail: string, stop: char, rest: string)
    requires '\n' !in tail && !InPassphraseClass(stop)
    ensures forall l: nat :: l > |cap| ==> !MatchAt(Assemble(pre, gap, cap, tail, stop, rest), |pre|, |gap|, l)
  {
    forall l: nat | l > |cap| ensures !MatchAt(Assemble(pre, gap, cap, tail, stop, rest), |pre|, |gap|, l) {
      AssembledNoLongerCapture(pre, gap, cap, tail, stop, rest, l);
    }
  }

  /** The leftmost-first match is unique, so it alone decides the result. */
  lemma LeftmostFirstDetermines(s: string, m: Span)
    requires LeftmostFirst(s, m)
    ensures GetOtpViaMail(s) == Some(s[m.CaptureStart()..m.CaptureStart() + m.len])
  {
    ScanFindsLeftmostFirst(s, m);
    ScannedCapture(s, m);
  }

  /** The result is the capture of the match the scanner finds. */
  lemma ScannedCapture(s: string, m: Span)
    requires Scan(s, 0) == Some(m)
    ensures GetOtpViaMail(s).Some? && GetOtpViaMail(s).value == s[m.CaptureStart()..m.CaptureStart() + m.len]
  {
  }

  /** The scanner finds the match the regex engine reports. */
  lemma ScanFindsLeftmostFirst(s: string, m: Span)
    requires LeftmostFirst(s, m)
    ensures Scan(s, 0) == Some(m)
  {
    var r := Scan(s, 0);
    assert r.Some? by {
      NoMatchNone(s, m);
    }
    LeftmostFirstUnique(s, r.value, m);
  }

  lemma NoMatchNone(s: string, m: Span)
    requires MatchAt(s, m.start, m.gap, m.len)
    ensures Scan(s, 0).Some?
  {
  }

  /** Two matches that are both leftmost-first are the same. */
  lemma LeftmostFirstUnique(s: string, m: Span, n: Span)
    requires LeftmostFirst(s, m) && LeftmostFirst(s, n)
    ensures m == n
  {
    assert m.start == n.start by {
      assert !(n.start < m.start) && !(m.start < n.start);
    }
    assert m.gap == n.gap by {
      assert !(n.gap < m.gap) && !(m.gap < n.gap);
    }
  }

  /** The login link of the test mail. */
  const TestLoginUrl: string :=
    "https://" + "duckduckgo.com" + "/email/login?" + "otp=" + DashedTestPassphrase + "&user=0xhack1984"

  /** The test mail up to the marker. */
  const TestMailLead: string :=
    TestMailHead + TestLoginUrl + BlankLine + "Or, enter this "

  /** The mail body of the repository's extraction test, written in pieces so that
      the proof can refer to them; the pieces are in order and nothing is left out. */
  const TestMail: string :=
    TestMailLead + Marker + TestMailGap + BlankLine + TestPassphrase + BlankLine
    + TestMailTail + ['’'] + TestMailRest

  /** The passphrase of the test mail, spaced as the mail writes it. */
  const TestPassphrase: string := "unstamped" + " " + "matching" + " " + "onboard" + " " + "proofs"

  /** The same words joined by '-', as the login link carries them. */
  const DashedTestPassphrase: string := "unstamped" + "-" + "matching" + "-" + "onboard" + "-" + "proofs"

  /** The rest of the marker's line in the test mail. */
  const TestMailGap: string := " in your open DuckDuckGo tab:"

  /** The text after the passphrase block up to the first character outside the class. */
  const TestMailTail: string := "If you didn"

  /** The test mail after that character. */
  const TestMailRest: string :=
    "t expect this email, someone may have accidentally entered your Duck\r\n"
    + "Address when attempting to enable Email Protection in their browser. If needed,\r\n"
    + "you can reach us at support@duck.com.\r\n"

  /** The test mail's first line and the blank line after it. */
  const TestMailHead: string := "To continue, open this " + "link in your browser:" + BlankLine

  /** Where the characters of the test mail's lead come from. */
  lemma TestMailLeadAt(i: nat)
    requires i < |TestMailLead + MarkerStem|
    ensures i < |TestMailHead| ==> (TestMailLead + MarkerStem)[i] == TestMailHead[i]
    ensures |TestMailHead| <= i < |TestMailHead| + |TestLoginUrl| + |BlankLine| + 1 ==>
      (TestMailLead + MarkerStem)[i] == (TestLoginUrl + BlankLine + "O")[i - |TestMailHead|]
    ensures |TestMailHead| + |TestLoginUrl| <= i < |TestMailLead| + 3 ==>
      (TestMailLead + MarkerStem)[i] == (BlankLine + "Or, enter this " + "one")[i - |TestMailHead| - |TestLoginUrl|]
  {
    assert MarkerStem[..3] == "one";
  }

  /** The first line has no '-'. */
  lemma TestMailLeadHeadNoDash(i: nat)
    requires i < |TestMailHead|
    ensures (TestMailLead + MarkerStem)[i] != '-'
  {
    TestMailLeadAt(i);
    assert '-' !in "To continue, open this ";
    assert '-' !in "link in your browser:" + BlankLine;
  }

  /** The login link has no ' '. */
  lemma TestMailLeadUrlNoSpace(i: nat)
    requires |TestMailHead| <= i < |TestMailHead| + |TestLoginUrl| + |BlankLine| + 1
    ensures (TestMailLead + MarkerStem)[i] != ' '
  {
    TestMailLeadAt(i);
    TestLoginUrlNoSpace();
    var k := i - |TestMailHead|;
    assert (TestLoginUrl + BlankLine + "O")[k] in TestLoginUrl + BlankLine + "O";
  }

  lemma TestLoginUrlNoSpace()
    ensures ' ' !in TestLoginUrl + BlankLine + "O"
  {
    assert ' ' !in "https://" && ' ' !in "duckduckgo.com" && ' ' !in "/email/login?" && ' ' !in "otp=";
    assert ' ' !in DashedTestPassphrase;
    assert ' ' !in "&user=0xhack1984" + BlankLine + "O";
  }

  /** The text before the marker has no '-'. */
  lemma TestMailLeadLastNoDash(i: nat)
    requires |TestMailHead| + |TestLoginUrl| <= i < |TestMailLead| + 3
    ensures (TestMailLead + MarkerStem)[i] != '-'
  {
    TestMailLeadAt(i);
    assert '-' !in BlankLine + "Or, enter this " + "one";
  }

  /** An occurrence of the marker needs '-' at its offset 3 and ' ' at its offset 8. */
  lemma NoMarkerWithoutDashOrSpace(s: string, i: nat)
    requires i + |Marker| <= |s|
    requires s[i + 3] != '-' || s[i + 8] != ' '
    ensures !At(s, i, Marker)
  {
    if s[i + 3] != '-' {
      NotAtByChar(s, i, Marker, 3);
    } else {
      NotAtByChar(s, i, Marker, 8);
    }
  }

  /** The marker does not occur in the lead (nor reaches out of it). */
  lemma TestMailLeadNoMarkerAt(i: nat)
    ensures !At(TestMailLead + MarkerStem, i, Marker)
  {
    if i + |Marker| > |TestMailLead + MarkerStem| {
      NotAtByChar(TestMailLead + MarkerStem, i, Marker, 18);
    } else {
      if i + 3 < |TestMailHead| {
        TestMailLeadHeadNoDash(i + 3);
      } else if i + 3 < |TestMailHead| + |TestLoginUrl| {
        TestMailLeadUrlNoSpace(i + 8);
      } else {
        TestMailLeadLastNoDash(i + 3);
      }
      NoMarkerWithoutDashOrSpace(TestMailLead + MarkerStem, i);
    }
  }

  lemma TestMailLeadHasNoMarker()
    ensures forall i: nat :: !At(TestMailLead + MarkerStem, i, Marker)
  {
    forall i: nat ensures !At(TestMailLead + MarkerStem, i, Marker) {
      TestMailLeadNoMarkerAt(i);
    }
  }

  /** The repository's test: the spaced passphrase of the mail body is found,
      although a login link with an `otp=` parameter comes first. */
  lemma TestMailPassphrase()
    ensures GetOtpViaMail(TestMail) == Some(TestPassphrase)
  {
    TestMailLeadHasNoMarker();
    TestPassphraseClass();
    TestMailGaps();
    TestMailAssembled();
    DelimitedBlockExtracted(TestMailLead, TestMailGap, TestPassphrase, TestMailTail, '’', TestMailRest);
  }

  lemma TestPassphraseClass()
    ensures forall c :: c in TestPassphrase ==> InPassphraseClass(c)
  {
  }

  lemma TestMailGaps()
    ensures '\n' !in TestMailGap && '\n' !in TestMailTail && !InPassphraseClass('’')
  {
  }

  lemma TestMailAssembled()
    ensures TestMail == Assemble(TestMailLead, TestMailGap, TestPassphrase, TestMailTail, '’', TestMailRest)
  {
  }

  /** Only a mail that contains the marker yields a passphrase. */
  lemma OtpNeedsMarker(mail: string)
    ensures GetOtpViaMail(mail).Some? ==> Contains(mail, Marker)
  {
    if GetOtpViaMail(mail).Some? {
      var m :| LeftmostFirst(mail, m) && GetOtpViaMail(mail).value == mail[m.CaptureStart()..m.CaptureStart() + m.len];
      assert At(mail, m.start, Marker);
    }
  }

  /** A passphrase found is non-empty and made of word characters, white space and '-'. */
  lemma OtpCharacters(mail: string)
    requires GetOtpViaMail(mail).Some?
    ensures var r := GetOtpViaMail(mail).value;
      |r| >= 1 && forall i :: 0 <= i < |r| ==> InPassphraseClass(r[i])
  {
    var m := Scan(mail, 0).value;
    CapturedInClass(mail, m.CaptureStart(), m.len);
  }

  /** A capture, cut out, is a non-empty run of passphrase characters. */
  lemma CapturedInClass(s: string, p: nat, len: nat)
    requires CaptureAt(s, p, len)
    ensures var r := s[p..p + len]; |r| >= 1 && forall i :: 0 <= i < |r| ==> InPassphraseClass(r[i])
  {
    var r := s[p..p + len];
    forall i | 0 <= i < |r| ensures InPassphraseClass(r[i]) {
      assert r[i] == s[p + i];
    }
  }

  /** `mail` is `pre`, the marker, `gap`, a blank line, `r`, a blank line and
      `post`, and `gap` stays on the marker's line. */
  predicate LaidOut(mail: string, pre: string, gap: string, r: string, post: string)
  {
    mail == pre + Marker + gap + BlankLine + r + BlankLine + post && '\n' !in gap
  }

  /** A match lays the mail out around its capture. */
  lemma MatchLayout(mail: string, start: nat, gapLen: nat, len: nat, r: string)
    requires MatchAt(mail, start, gapLen, len)
    requires r == mail[start + |Marker| + gapLen + |BlankLine|..start + |Marker| + gapLen + |BlankLine| + len]
    ensures exists pre, gap, post :: LaidOut(mail, pre, gap, r, post)
  {
    var b := start + |Marker|;
    var c := b + gapLen;
    var d := c + |BlankLine|;
    var e := d + len;
    var f := e + |BlankLine|;
    var pre, gap, post := mail[..start], mail[b..c], mail[f..];
    CutAround(mail, start, b, c, d, e, f, Marker, BlankLine, r);
    NoNewlineSlice(mail, b, c);
    assert LaidOut(mail, pre, gap, r, post);
  }

  /** A text cut at ascending points is the concatenation of its pieces, with the
      pieces between the cuts named by what they are known to hold. */
  lemma CutAround(s: string, a: nat, b: nat, c: nat, d: nat, e: nat, f: nat, mk: string, bl: string, r: string)
    requires a <= b <= c <= d <= e <= f <= |s|
    requires s[a..b] == mk && s[c..d] == bl && s[d..e] == r && s[e..f] == bl
    ensures s == s[..a] + mk + s[b..c] + bl + r + bl + s[f..]
  {
    assert s[..b] == s[..a] + s[a..b];
    assert s[..c] == s[..b] + s[b..c];
    assert s[..d] == s[..c] + s[c..d];
    assert s[..e] == s[..d] + s[d..e];
    assert s[..f] == s[..e] + s[e..f];
    assert s == s[..f] + s[f..];
  }

  /** A stretch without line feeds, cut out, has none. */
  lemma NoNewlineSlice(s: string, from: nat, to: nat)
    requires from <= to <= |s| && NoNewline(s, from, to)
    ensures '\n' !in s[from..to]
  {
    forall i | 0 <= i < to - from ensures s[from..to][i] != '\n' {
      assert s[from..to][i] == s[from + i];
    }
  }

  /** A passphrase found stands in the mail after the marker, a gap on the
      marker's line and a blank line, and before another blank line. */
  lemma OtpLayout(mail: string)
    requires GetOtpViaMail(mail).Some?
    ensures exists pre, gap, post :: LaidOut(mail, pre, gap, GetOtpViaMail(mail).value, post)
  {
    var m :| LeftmostFirst(mail, m) && GetOtpViaMail(mail).value == mail[m.CaptureStart()..m.CaptureStart() + m.len];
    MatchLayout(mail, m.start, m.gap, m.len, GetOtpViaMail(mail).value);
  }

  /** The block is returned as it stands: white space around it is kept. */
  lemma UntrimmedCapture()
    ensures GetOtpViaMail(Marker + ":" + BlankLine + " a b " + BlankLine + "!") == Some(" a b ")
  {
    SpacedBlockLaidOut();
    DelimitedBlockExtracted("", ":", " a b ", "", '!', "");
  }

  lemma SpacedBlockLaidOut()
    ensures Marker + ":" + BlankLine + " a b " + BlankLine + "!" == Assemble("", ":", " a b ", "", '!', "")
    ensures forall c :: c in " a b " ==> InPassphraseClass(c)
  {
  }

  /** The capture is greedy: line breaks are white space, so it runs on over
      blank lines to the last blank line it can reach. */
  lemma GreedyCaptureSpansBlocks()
    ensures GetOtpViaMail(Marker + BlankLine + "ab" + BlankLine + "cd" + BlankLine + "!") == Some("ab" + BlankLine + "cd")
  {
    TwoBlocksLaidOut();
    DelimitedBlockExtracted("", "", "ab" + BlankLine + "cd", "", '!', "");
  }

  lemma TwoBlocksLaidOut()
    ensures Marker + BlankLine + "ab" + BlankLine + "cd" + BlankLine + "!" == Assemble("", "", "ab" + BlankLine + "cd", "", '!', "")
    ensures forall c :: c in "ab" + BlankLine + "cd" ==> InPassphraseClass(c)
  {
  }

  /** Four words joined by spaces become the words joined by dashes. */
  lemma DashedWords(w1: string, w2: string, w3: string, w4: string)
    requires ' ' !in w1 && ' ' !in w2 && ' ' !in w3 && ' ' !in w4
    ensures ReplaceChar(w1 + " " + w2 + " " + w3 + " " + w4, ' ', '-') == w1 + "-" + w2 + "-" + w3 + "-" + w4
  {
    ReplaceCharConcat(w1 + " " + w2 + " " + w3 + " ", w4, ' ', '-');
    ReplaceCharConcat(w1 + " " + w2 + " " + w3, " ", ' ', '-');
    ReplaceCharConcat(w1 + " " + w2 + " ", w3, ' ', '-');
    ReplaceCharConcat(w1 + " " + w2, " ", ' ', '-');
    ReplaceCharConcat(w1 + " ", w2, ' ', '-');
    ReplaceCharConcat(w1, " ", ' ', '-');
    ReplaceCharAbsent(w1, ' ', '-');
    ReplaceCharAbsent(w2, ' ', '-');
    ReplaceCharAbsent(w3, ' ', '-');
    ReplaceCharAbsent(w4, ' ', '-');
    assert ReplaceChar(" ", ' ', '-') == "-";
  }

  /** The test mail's passphrase, typed into the login call, is sent with dashes. */
  lemma TypedTestPassphrase()
    ensures DdepApi.NormalizeOtp(TestPassphrase) == Success(DashedTestPassphrase)
  {
    var typed := TestPassphrase;
    NotAtByChar(typed, 0, DdepApi.UrlScheme, 0);
    DdepApi.TypedOtp(typed);
    assert ' ' !in "unstamped" && ' ' !in "matching" && ' ' !in "onboard" && ' ' !in "proofs";
    DashedWords("unstamped", "matching", "onboard", "proofs");
  }

  /** Read from the test mail and typed into the login call, the passphrase is
      sent in the dashed form that the mail's login link carries. */
  lemma TestMailLoginOtp()
    ensures GetOtpViaMail(TestMail).Some?
    ensures DdepApi.NormalizeOtp(GetOtpViaMail(TestMail).value) == Success(DashedTestPassphrase)
  {
    TestMailPassphrase();
    TypedTestPassphrase();
  }

  /** The account configuration (`DdConfig`): the user name, the two tokens and
      whatever other entries the configuration file holds. */
  datatype DdConfig = DdConfig(username: string, token: Option<string>, accessToken: Option<string>, other: map<string, Value>)

  /** `DdConfig::new`: the given fields and no other entries. */
  function NewDdConfig(username: string, token: Option<string>, accessToken: Option<string>): (cfg: DdConfig)
    ensures cfg.username == username && cfg.token == token && cfg.accessToken == accessToken
    ensures cfg.other == map[]
  {
    DdConfig(username, token, accessToken, map[])
  }

  /** `From<Client> for DdConfig`: the client's user name and tokens, and no other
      entries; whether it is logged in, its e-mail address and address count are
      not kept. */
  function FromClient(c: DdepApi.Client): (cfg: DdConfig)
    reads c
    ensures cfg.username == c.username && cfg.token == c.token && cfg.accessToken == c.accessToken
    ensures cfg.other == map[]
  {
    NewDdConfig(c.username, c.token, c.accessToken)
  }

  /** `From<DdConfig> for Client`: a new client for the configuration's user name
      and tokens. Turned back into a configuration it gives the same one without
      the other entries. */
  method IntoClient(cfg: DdConfig) returns (c: DdepApi.Client)
    ensures fresh(c) && c.Valid()
    ensures c.username == cfg.username && c.token == cfg.token && c.accessToken == cfg.accessToken
    ensures c.loggedIn <==> cfg.token.Some? && cfg.accessToken.Some?
    ensures c.realEmail.None? && c.generatedAddresses.None?
    ensures FromClient(c) == cfg.(other := map[])
  {
    c := new DdepApi.Client(cfg.username, cfg.token, cfg.accessToken);
  }

  /** Client to configuration to client keeps the user name and both tokens. */
  method ReloadClient(c: DdepApi.Client) returns (d: DdepApi.Client)
    ensures fresh(d)
    ensures d.username == c.username && d.token == c.token && d.accessToken == c.accessToken
  {
    var cfg := FromClient(c);
    d := IntoClient(cfg);
  }
}
