/** Reading mail (src/email.rs): the text of a parsed message, the mail
    server's `host:port` setting, the fold that keeps the fetched messages that
    are UTF-8, and the loop that polls until a matching message arrives.

    The IMAP session, TLS and mailparse are not modelled: what they produce is
    given as inputs. */
module Email {
  import opened Wrappers
  import opened Text

  /** A message reduced to its sender, subject and text. */
  datatype Email = Email(from: string, subject: string, body: string)

  /** One node of a MIME tree (RFC 2046): its content type, its decoded body and
      its parts, in order. */
  datatype MailPart = MailPart(mimetype: string, body: string, subparts: seq<MailPart>)

  /** A parsed message: the values of its first From and Subject headers and its
      MIME tree. */
  datatype ParsedMail = ParsedMail(from: string, subject: string, root: MailPart)

  const PlainType: string := "text/plain"

  predicate IsPlainText(part: MailPart)
  {
    StartsWith(part.mimetype, PlainType)
  }

  /** Reference: the bodies of the plain-text parts among `parts`, in order. */
  function PlainBodies(parts: seq<MailPart>): string
  {
    if parts == [] then "" else (if IsPlainText(parts[0]) then parts[0].body else "") + PlainBodies(parts[1..])
  }

  /** The source's fold over the subparts, adding each plain-text body to the
      accumulated text and skipping every other part. */
  function FoldBodies(acc: string, parts: seq<MailPart>): (r: string)
    ensures r == acc + PlainBodies(parts)
    decreases |parts|
  {
    if parts == [] then acc
    else
      var next := if IsPlainText(parts[0]) then acc + parts[0].body else acc;
      assert next + PlainBodies(parts[1..]) == acc + PlainBodies(parts);
      FoldBodies(next, parts[1..])
  }

  /** The text of a message: its own body when it is plain text, else the bodies
      of those of its direct subparts that are plain text, in order; parts
      nested deeper are not looked at. */
  function BodyOf(root: MailPart): (body: string)
    ensures IsPlainText(root) ==> body == root.body
    ensures !IsPlainText(root) ==> body == PlainBodies(root.subparts)
  {
    if IsPlainText(root) then root.body else FoldBodies("", root.subparts)
  }

  /** `From<ParsedMail> for Email`. */
  function ToEmail(mail: ParsedMail): (e: Email)
    ensures e.from == mail.from && e.subject == mail.subject && e.body == BodyOf(mail.root)
  {
    Email(mail.from, mail.subject, BodyOf(mail.root))
  }

  /** Every byte of a plain-text body shows up in the text: with one plain part
      among others the text is that part's body. */
  lemma {:induction false} PlainBodiesSingle(parts: seq<MailPart>, i: nat)
    requires i < |parts| && IsPlainText(parts[i])
    requires forall j :: 0 <= j < |parts| && j != i ==> !IsPlainText(parts[j])
    ensures PlainBodies(parts) == parts[i].body
    decreases |parts|
  {
    if i == 0 {
      NoPlainBodies(parts[1..]);
    } else {
      PlainBodiesSingle(parts[1..], i - 1);
    }
  }

  /** Without a plain-text part the text is empty. */
  lemma {:induction false} NoPlainBodies(parts: seq<MailPart>)
    requires forall j :: 0 <= j < |parts| ==> !IsPlainText(parts[j])
    ensures PlainBodies(parts) == ""
    decreases |parts|
  {
    if parts != [] {
      NoPlainBodies(parts[1..]);
    }
  }

  /** The text of consecutive runs of parts is the text of each run, in order. */
  lemma {:induction false} PlainBodiesConcat(a: seq<MailPart>, b: seq<MailPart>)
    ensures PlainBodies(a + b) == PlainBodies(a) + PlainBodies(b)
    decreases |a|
  {
    if a != [] {
      assert (a + b)[0] == a[0];
      assert (a + b)[1..] == a[1..] + b;
      PlainBodiesConcat(a[1..], b);
      var head := if IsPlainText(a[0]) then a[0].body else "";
      calc {
        PlainBodies(a + b);
        head + PlainBodies(a[1..] + b);
        head + (PlainBodies(a[1..]) + PlainBodies(b));
        (head + PlainBodies(a[1..])) + PlainBodies(b);
      }
    } else {
      assert a + b == b;
    }
  }

  /** A multipart message with a plain-text part and its HTML rendering has the
      plain text as its text. */
  lemma AlternativeBody(alternative: MailPart, plain: MailPart, html: MailPart)
    requires alternative.subparts == [plain, html]
    requires !IsPlainText(alternative) && IsPlainText(plain) && !IsPlainText(html)
    ensures BodyOf(alternative) == plain.body
  {
    PlainBodiesSingle([plain, html], 0);
  }

  /** Plain text nested one level deeper is not found: only direct subparts count. */
  lemma NestedPlainTextIgnored(mixed: MailPart, alternative: MailPart)
    requires mixed.subparts == [alternative]
    requires !IsPlainText(mixed) && !IsPlainText(alternative)
    ensures BodyOf(mixed) == ""
  {
    NoPlainBodies([alternative]);
  }

  /** The content types of the usual shape: "multipart/mixed" holding a
      "multipart/alternative" of "text/plain" and "text/html". */
  lemma UsualContentTypes()
    ensures !StartsWith("multipart/mixed", PlainType)
    ensures !StartsWith("multipart/alternative", PlainType)
    ensures !StartsWith("text/html", PlainType)
    ensures StartsWith("text/plain; charset=utf-8", PlainType)
  {
    NotAtByChar("multipart/mixed", 0, PlainType, 0);
    NotAtByChar("multipart/alternative", 0, PlainType, 0);
    NotAtByChar("text/html", 0, PlainType, 5);
    assert "text/plain; charset=utf-8"[..|PlainType|] == PlainType;
  }

  // ---------------------------------------------------------------------------
  // The mail server setting "<addr>:<port>"

  /** `str::split` on one character: the pieces between the separators, in
      order; one more piece than there are separators. */
  function SplitOn(s: string, sep: char): (pieces: seq<string>)
    ensures |pieces| >= 1
    ensures forall i :: 0 <= i < |pieces| ==> sep !in pieces[i]
    decreases |s|
  {
    if s == [] then [""]
    else
      var rest := SplitOn(s[1..], sep);
      if s[0] == sep then [""] + rest
      else [[s[0]] + rest[0]] + rest[1..]
  }

  /** The pieces joined again with the separator between them. */
  function Join(pieces: seq<string>, sep: char): string
    requires |pieces| >= 1
    decreases |pieces|
  {
    if |pieces| == 1 then pieces[0] else pieces[0] + [sep] + Join(pieces[1..], sep)
  }

  function Count(s: string, c: char): nat
  {
    if s == [] then 0 else (if s[0] == c then 1 else 0) + Count(s[1..], c)
  }

  /** Splitting loses nothing: joining the pieces gives the string back. */
  lemma {:induction false} JoinSplit(s: string, sep: char)
    ensures Join(SplitOn(s, sep), sep) == s
    decreases |s|
  {
    if s != [] {
      JoinSplit(s[1..], sep);
      var rest := SplitOn(s[1..], sep);
      if s[0] != sep {
        if |rest| > 1 {
          assert ([[s[0]] + rest[0]] + rest[1..])[1..] == rest[1..];
        }
      }
    }
  }

  /** There is one piece more than there are separators. */
  lemma {:induction false} SplitCount(s: string, sep: char)
    ensures |SplitOn(s, sep)| == Count(s, sep) + 1
    decreases |s|
  {
    if s != [] {
      SplitCount(s[1..], sep);
    }
  }

  /** Splitting undoes joining pieces that do not hold the separator. */
  lemma {:induction false} SplitJoin(pieces: seq<string>, sep: char)
    requires |pieces| >= 1 && forall i :: 0 <= i < |pieces| ==> sep !in pieces[i]
    ensures SplitOn(Join(pieces, sep), sep) == pieces
    decreases |pieces|, |pieces[0]|
  {
    var p := pieces[0];
    if |pieces| == 1 {
      SplitFree(p, sep);
    } else if p == [] {
      assert Join(pieces, sep) == [sep] + Join(pieces[1..], sep);
      assert ([sep] + Join(pieces[1..], sep))[1..] == Join(pieces[1..], sep);
      SplitJoin(pieces[1..], sep);
    } else {
      var shorter := [p[1..]] + pieces[1..];
      assert shorter[1..] == pieces[1..];
      assert forall i :: 0 <= i < |shorter| ==> sep !in shorter[i] by {
        forall i | 0 <= i < |shorter| ensures sep !in shorter[i] {
          if i == 0 {
            assert forall c :: c in p[1..] ==> c in p;
          } else {
            assert shorter[i] == pieces[i];
          }
        }
      }
      assert p[0] in p;
      assert Join(pieces, sep) == [p[0]] + Join(shorter, sep);
      assert ([p[0]] + Join(shorter, sep))[1..] == Join(shorter, sep);
      SplitJoin(shorter, sep);
      assert [p[0]] + p[1..] == p;
    }
  }

  /** A string without the separator is a single piece. */
  lemma {:induction false} SplitFree(s: string, sep: char)
    requires sep !in s
    ensures SplitOn(s, sep) == [s]
    decreases |s|
  {
    if s != [] {
      assert forall c :: c in s[1..] ==> c in s;
      SplitFree(s[1..], sep);
      assert [s[0]] + s[1..] == s;
    }
  }

  predicate IsDigit(c: char)
  {
    '0' <= c <= '9'
  }

  /** The number a string of decimal digits denotes, leading zeros allowed. */
  function DigitsValue(s: string): nat
    requires forall i :: 0 <= i < |s| ==> IsDigit(s[i])
    decreases |s|
  {
    if s == [] then 0
    else
      var last := s[|s| - 1];
      assert IsDigit(last);
      10 * DigitsValue(s[..|s| - 1]) + (last as int - '0' as int)
  }

  predicate AllDigits(s: string)
  {
    forall i :: 0 <= i < |s| ==> IsDigit(s[i])
  }

  const MaxU16: nat := 0xFFFF

  /** `u16::from_str`: an optional '+' and then at least one decimal digit, to a
      value of at most 65535. */
  function ParseU16(s: string): (r: Option<nat>)
    ensures r.Some? <==> exists d :: (s == d || s == "+" + d) && |d| >= 1 && AllDigits(d) && DigitsValue(d) <= MaxU16
    ensures r.Some? ==> r.value <= MaxU16
    ensures forall d :: (s == d || s == "+" + d) && |d| >= 1 && AllDigits(d) && DigitsValue(d) <= MaxU16 ==>
      r == Some(DigitsValue(d))
  {
    var d := if |s| >= 1 && s[0] == '+' then s[1..] else s;
    assert s == d || s == "+" + d;
    assert forall e :: (s == e || s == "+" + e) && |e| >= 1 && AllDigits(e) ==> e == d by {
      forall e | (s == e || s == "+" + e) && |e| >= 1 && AllDigits(e) ensures e == d {
        if s == "+" + e && s != e {
          assert s[0] == '+';
        } else if s == e && s != "+" + e && |s| >= 1 {
          assert IsDigit(s[0]);
        }
      }
    }
    if |d| >= 1 && AllDigits(d) && DigitsValue(d) <= MaxU16 then Some(DigitsValue(d)) else None
  }

  datatype SmtpError = InvalidFormat | InvalidPort

  /** The two errors are told apart by their texts. */
  lemma SmtpErrorTextsDiffer()
    ensures SmtpErrorText(InvalidFormat) != SmtpErrorText(InvalidPort)
  {
    assert |SmtpErrorText(InvalidFormat)| != |SmtpErrorText(InvalidPort)|;
  }

  /** How a bad setting is reported; the text of a port error is `ParseIntError`'s. */
  function SmtpErrorText(e: SmtpError): string
  {
    match e
    case InvalidFormat => "Invalid SMTP format, expected <addr>:<port>"
    case InvalidPort => "invalid port number"
  }

  /** `split_smtp`: the server setting cut at its single ':' into the host and
      the port. More or fewer than one ':' is a format error; a port that is not
      a `u16` is a port error. */
  function SplitSmtp(smtp: string): (r: Result<(string, nat), SmtpError>)
    ensures Count(smtp, ':') != 1 ==> r == Failure(InvalidFormat)
    ensures Count(smtp, ':') == 1 ==> var pieces := SplitOn(smtp, ':');
      && |pieces| == 2 && Join(pieces, ':') == smtp
      && (ParseU16(pieces[1]).None? ==> r == Failure(InvalidPort))
      && (ParseU16(pieces[1]).Some? ==> r == Success((pieces[0], ParseU16(pieces[1]).value)))
  {
    SplitCount(smtp, ':');
    JoinSplit(smtp, ':');
    var pieces := SplitOn(smtp, ':');
    if |pieces| != 2 then Failure(InvalidFormat)
    else
      match ParseU16(pieces[1])
      case None => Failure(InvalidPort)
      case Some(port) => Success((pieces[0], port))
  }

  /** A port written in decimal, as `u16`'s `to_string` writes it. */
  function Decimal(n: nat): (s: string)
    ensures |s| >= 1 && AllDigits(s) && DigitsValue(s) == n
    decreases n
  {
    var last := ['0' + (n % 10) as char];
    if n < 10 then last
    else
      var s := Decimal(n / 10) + last;
      assert s[..|s| - 1] == Decimal(n / 10);
      s
  }

  /** A host without ':' and a port in range, written as "<host>:<port>", are
      read back as they were. */
  lemma SmtpRoundTrip(host: string, port: nat)
    requires ':' !in host && port <= MaxU16
    ensures SplitSmtp(host + ":" + Decimal(port)) == Success((host, port))
  {
    var p := Decimal(port);
    assert ':' !in p by {
      forall i | 0 <= i < |p| ensures p[i] != ':' { assert IsDigit(p[i]); }
    }
    var smtp := host + ":" + p;
    assert smtp == Join([host, p], ':');
    SplitJoin([host, p], ':');
    SplitCount(smtp, ':');
    assert ParseU16(p) == Some(port);
  }

  /** A string without the character counts none of it. */
  lemma {:induction false} CountAbsent(s: string, c: char)
    requires c !in s
    ensures Count(s, c) == 0
    decreases |s|
  {
    if s != [] {
      assert forall x :: x in s[1..] ==> x in s;
      CountAbsent(s[1..], c);
    }
  }

  /** A setting without a port is refused. */
  lemma SmtpWithoutPort()
    ensures SplitSmtp("imap.example.org") == Failure(InvalidFormat)
  {
    assert ':' !in "imap.example.org";
    CountAbsent("imap.example.org", ':');
  }

  /** A setting with two ports is refused. */
  lemma SmtpWithTwoPorts()
    ensures SplitSmtp("a:1:2") == Failure(InvalidFormat)
  {
    assert Count("a:1:2", ':') == 2;
  }

  /** 65536 does not fit a `u16`. */
  lemma PortOutOfRange()
    ensures ParseU16("65536").None?
  {
    var port := "65536";
    assert DigitsValue(port) == 65536 by {
      assert "65"[..1] == "6" && DigitsValue("6") == 6;
      assert "655"[..2] == "65" && DigitsValue("65") == 65;
      assert "6553"[..3] == "655" && DigitsValue("655") == 655;
      assert port[..4] == "6553" && DigitsValue("6553") == 6553;
    }
    assert AllDigits(port);
  }

  /** A port beyond 65535 is refused. */
  lemma SmtpPortOutOfRange()
    ensures SplitSmtp("a:65536") == Failure(InvalidPort)
  {
    var port := "65536";
    assert "a:65536" == Join(["a", port], ':');
    assert ':' !in "a" && ':' !in port;
    SplitJoin(["a", port], ':');
    SplitCount("a:65536", ':');
    PortOutOfRange();
  }

  // ---------------------------------------------------------------------------
  // Collecting the fetched messages

  newtype byte = b: int | 0 <= b < 0x100

  predicate InRange(b: byte, lo: byte, hi: byte)
  {
    lo <= b <= hi
  }

  /** The length of the well-formed UTF-8 sequence `s` starts with (RFC 3629,
      section 4), or 0 when it starts with none. */
  function Utf8SequenceLength(s: seq<byte>): (n: nat)
    requires |s| >= 1
    ensures n <= |s|
  {
    var b0 := s[0];
    if b0 <= 0x7F then 1
    else if |s| >= 2 && InRange(b0, 0xC2, 0xDF) && InRange(s[1], 0x80, 0xBF) then 2
    else if |s| >= 3 && InRange(s[2], 0x80, 0xBF) && (
      || (b0 == 0xE0 && InRange(s[1], 0xA0, 0xBF))
      || (InRange(b0, 0xE1, 0xEC) && InRange(s[1], 0x80, 0xBF))
      || (b0 == 0xED && InRange(s[1], 0x80, 0x9F))
      || (InRange(b0, 0xEE, 0xEF) && InRange(s[1], 0x80, 0xBF))) then 3
    else if |s| >= 4 && InRange(s[2], 0x80, 0xBF) && InRange(s[3], 0x80, 0xBF) && (
      || (b0 == 0xF0 && InRange(s[1], 0x90, 0xBF))
      || (InRange(b0, 0xF1, 0xF3) && InRange(s[1], 0x80, 0xBF))
      || (b0 == 0xF4 && InRange(s[1], 0x80, 0x8F))) then 4
    else 0
  }

  /** `str::from_utf8` succeeds: the bytes are a run of well-formed sequences. */
  predicate IsUtf8(s: seq<byte>)
    decreases |s|
  {
    s == [] || (Utf8SequenceLength(s) > 0 && IsUtf8(s[Utf8SequenceLength(s)..]))
  }

  /** ASCII text is UTF-8. */
  lemma {:induction false} AsciiIsUtf8(s: seq<byte>)
    requires forall i :: 0 <= i < |s| ==> s[i] <= 0x7F
    ensures IsUtf8(s)
    decreases |s|
  {
    if s != [] {
      AsciiIsUtf8(s[1..]);
    }
  }

  /** The first sequence is read from its own bytes only: what follows it does
      not change its length. */
  lemma SequenceLengthPrefix(a: seq<byte>, b: seq<byte>)
    requires |a| >= 1 && Utf8SequenceLength(a) > 0
    ensures Utf8SequenceLength(a + b) == Utf8SequenceLength(a)
  {
    var n := Utf8SequenceLength(a);
    forall i | 0 <= i < n ensures (a + b)[i] == a[i] {
    }
    assert (a + b)[0] == a[0];
    if n >= 2 { assert (a + b)[1] == a[1]; }
    if n >= 3 { assert (a + b)[2] == a[2]; }
    if n >= 4 { assert (a + b)[3] == a[3]; }
  }

  /** Two UTF-8 texts one after the other are UTF-8. */
  lemma {:induction false} Utf8Concat(a: seq<byte>, b: seq<byte>)
    requires IsUtf8(a) && IsUtf8(b)
    ensures IsUtf8(a + b)
    decreases |a|
  {
    if a == [] {
      assert a + b == b;
    } else {
      var n := Utf8SequenceLength(a);
      SequenceLengthPrefix(a, b);
      assert (a + b)[n..] == a[n..] + b;
      Utf8Concat(a[n..], b);
    }
  }

  /** Overlong forms and lone continuation bytes are not. */
  lemma NotUtf8()
    ensures !IsUtf8([0xC0, 0x80])
    ensures !IsUtf8([0x80])
    ensures IsUtf8([0xE2, 0x80, 0x99])
  {
    assert Utf8SequenceLength([0xE2, 0x80, 0x99]) == 3;
    assert [0xE2, 0x80, 0x99][3..] == [];
  }

  /** Reference for the fold: the messages that are UTF-8, parsed, in the order
      they were fetched. */
  function Kept(fetched: seq<seq<byte>>, parse: seq<byte> -> Email): seq<Email>
  {
    if fetched == [] then []
    else (if IsUtf8(fetched[0]) then [parse(fetched[0])] else []) + Kept(fetched[1..], parse)
  }

  lemma {:induction false} KeptConcat(a: seq<seq<byte>>, b: seq<seq<byte>>, parse: seq<byte> -> Email)
    ensures Kept(a + b, parse) == Kept(a, parse) + Kept(b, parse)
    decreases |a|
  {
    if a != [] {
      assert (a + b)[0] == a[0];
      assert (a + b)[1..] == a[1..] + b;
      KeptConcat(a[1..], b, parse);
      var head := if IsUtf8(a[0]) then [parse(a[0])] else [];
      calc {
        Kept(a + b, parse);
        head + Kept(a[1..] + b, parse);
        head + (Kept(a[1..], parse) + Kept(b, parse));
        (head + Kept(a[1..], parse)) + Kept(b, parse);
      }
    } else {
      assert a + b == b;
    }
  }

  /** Never more messages than ids, and as many exactly when all are UTF-8. */
  lemma {:induction false} KeptLength(fetched: seq<seq<byte>>, parse: seq<byte> -> Email)
    ensures |Kept(fetched, parse)| <= |fetched|
    ensures |Kept(fetched, parse)| == |fetched| <==> forall i :: 0 <= i < |fetched| ==> IsUtf8(fetched[i])
    decreases |fetched|
  {
    if fetched != [] {
      KeptLength(fetched[1..], parse);
      assert forall i :: 1 <= i < |fetched| ==> fetched[i] == fetched[1..][i - 1];
    }
  }

  /** `fetch_email`: the server setting is read first; then, unless the session
      fails (connecting, logging in, selecting the inbox or searching), the
      messages it fetched for the search's ids are folded into the result,
      keeping those that are UTF-8. */
  method FetchEmail(smtp: string, session: Result<seq<seq<byte>>, string>, parse: seq<byte> -> Email)
    returns (r: Result<seq<Email>, string>)
    ensures SplitSmtp(smtp).Failure? ==> r == Failure(SmtpErrorText(SplitSmtp(smtp).error))
    ensures SplitSmtp(smtp).Success? && session.Failure? ==> r == Failure(session.error)
    ensures SplitSmtp(smtp).Success? && session.Success? ==> r == Success(Kept(session.value, parse))
  {
    var server := SplitSmtp(smtp);
    if server.Failure? {
      r := Failure(SmtpErrorText(server.error));
      return;
    }
    if session.Failure? {
      r := Failure(session.error);
      return;
    }
    var emails := KeepUtf8(session.value, parse);
    r := Success(emails);
  }

  /** The fold of `fetch_email`: each fetched message that is UTF-8 is parsed and
      pushed, in turn; the others are dropped. */
  method KeepUtf8(fetched: seq<seq<byte>>, parse: seq<byte> -> Email) returns (ret: seq<Email>)
    ensures ret == Kept(fetched, parse)
  {
    ret := [];
    var i := 0;
    while i < |fetched|
      invariant 0 <= i <= |fetched|
      invariant ret == Kept(fetched[..i], parse)
    {
      KeptConcat(fetched[..i], [fetched[i]], parse);
      assert fetched[..i + 1] == fetched[..i] + [fetched[i]];
      if IsUtf8(fetched[i]) {
        ret := ret + [parse(fetched[i])];
      }
      i := i + 1;
    }
    assert fetched[..i] == fetched;
  }

  // ---------------------------------------------------------------------------
  // Polling until a message arrives

  datatype TimeoutError = TimeoutError(message: string)

  const TimeoutMessage: string := "Timeout, cannot find new email"

  /** Attempt `k` found messages. */
  predicate Found(search: nat -> Result<seq<Email>, string>, k: nat)
  {
    search(k).Success? && |search(k).value| > 0
  }

  /** None of the first `n` attempts found messages, and all of them were
      followed by a reading below the timeout. */
  predicate NothingBefore(search: nat -> Result<seq<Email>, string>, elapsed: nat -> nat, timeout: nat, n: nat)
  {
    forall j: nat :: j < n ==> !Found(search, j) && elapsed(j) < timeout
  }

  /** The lines printed after one more attempt. */
  lemma LinesOfNext(search: nat -> Result<seq<Email>, string>, n: nat, log: seq<string>)
    requires search(n).Failure? ==> log == ErrorLines(search, n) + ["Error: " + search(n).error]
    requires search(n).Success? ==> log == ErrorLines(search, n)
    ensures log == ErrorLines(search, n + 1)
  {
    assert ErrorLines(search, n) + [] == ErrorLines(search, n);
  }

  /** An attempt that found nothing before the timeout extends the run of such attempts. */
  lemma NothingBeforeNext(search: nat -> Result<seq<Email>, string>, elapsed: nat -> nat, timeout: nat, n: nat)
    requires NothingBefore(search, elapsed, timeout, n)
    requires !Found(search, n) && elapsed(n) < timeout
    ensures NothingBefore(search, elapsed, timeout, n + 1)
  {
  }

  /** The lines printed for the first `n` attempts: one per failed attempt. */
  function ErrorLines(search: nat -> Result<seq<Email>, string>, n: nat): seq<string>
  {
    if n == 0 then []
    else ErrorLines(search, n - 1) + (if search(n - 1).Failure? then ["Error: " + search(n - 1).error] else [])
  }

  /** `fetch_until`: `search(k)` is what the `k`-th call of `fetch_email` gave and
      `elapsed(k)` the time read after it; between two readings the loop sleeps
      for `period`. The first attempt that finds messages ends the loop with
      them; failed attempts are printed and retried; after an attempt that finds
      nothing, a reading of at least `timeout` ends it with a timeout. */
  method FetchUntil(search: nat -> Result<seq<Email>, string>, elapsed: nat -> nat, timeout: nat, period: nat)
    returns (r: Result<seq<Email>, TimeoutError>, attempts: nat, log: seq<string>)
    requires forall k: nat :: elapsed(k) < elapsed(k + 1) && elapsed(k) + period <= elapsed(k + 1)
    ensures attempts >= 1
    ensures NothingBefore(search, elapsed, timeout, attempts - 1)
    ensures r.Success? <==> Found(search, attempts - 1)
    ensures r.Success? ==> r.value == search(attempts - 1).value
    ensures r.Failure? ==> elapsed(attempts - 1) >= timeout && r.error == TimeoutError(TimeoutMessage)
    ensures r.Success? ==> log == ErrorLines(search, attempts)
    ensures r.Failure? ==> log == ErrorLines(search, attempts) + ["Timeout reached"]
    ensures attempts >= 2 ==> elapsed(0) + (attempts - 2) * period < timeout
  {
    ElapsedGrows(elapsed, period, 0);
    var k: nat := 0;
    log := [];
    while true
      invariant NothingBefore(search, elapsed, timeout, k)
      invariant log == ErrorLines(search, k)
      invariant elapsed(k) >= k
      decreases timeout - k
    {
      var outcome := search(k);
      if outcome.Failure? {
        log := log + ["Error: " + outcome.error];
      }
      LinesOfNext(search, k, log);
      if outcome.Success? && |outcome.value| > 0 {
        r, attempts := Success(outcome.value), k + 1;
        AttemptsBounded(search, elapsed, timeout, period, k);
        return;
      }
      if elapsed(k) >= timeout {
        r, attempts := Failure(TimeoutError(TimeoutMessage)), k + 1;
        log := log + ["Timeout reached"];
        AttemptsBounded(search, elapsed, timeout, period, k);
        return;
      }
      // sleep(period)
      ElapsedGrows(elapsed, period, k + 1);
      NothingBeforeNext(search, elapsed, timeout, k);
      k := k + 1;
    }
  }

  /** A clock that strictly advances has read at least `k` after `k` steps. */
  lemma {:induction false} ElapsedGrows(elapsed: nat -> nat, period: nat, k: nat)
    requires forall k: nat :: elapsed(k) < elapsed(k + 1) && elapsed(k) + period <= elapsed(k + 1)
    ensures elapsed(k) >= k
  {
    if k > 0 {
      ElapsedGrows(elapsed, period, k - 1);
    }
  }

  /** The attempts that came before the timeout span less than the timeout: with
      `n` of them, the last came `n - 1` periods or more after the first, while
      the clock was still below the timeout. For a positive period this bounds
      the number of attempts `FetchUntil` makes. */
  lemma AttemptsBounded(search: nat -> Result<seq<Email>, string>, elapsed: nat -> nat, timeout: nat, period: nat, n: nat)
    requires forall k: nat :: elapsed(k) < elapsed(k + 1) && elapsed(k) + period <= elapsed(k + 1)
    requires NothingBefore(search, elapsed, timeout, n)
    ensures n >= 1 ==> elapsed(0) + (n - 1) * period < timeout
  {
    if n >= 1 {
      AttemptsSpaced(elapsed, period, n - 1);
    }
  }

  /** Readings at least `period` apart: attempt `k` comes at least `k` periods
      after the first. */
  lemma {:induction false} AttemptsSpaced(elapsed: nat -> nat, period: nat, k: nat)
    requires forall k: nat :: elapsed(k) < elapsed(k + 1) && elapsed(k) + period <= elapsed(k + 1)
    ensures elapsed(0) + k * period <= elapsed(k)
  {
    if k > 0 {
      AttemptsSpaced(elapsed, period, k - 1);
    }
  }
}
