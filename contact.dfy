/**
 * The contact form's submit handler: the honeypot guard, the trimmed and
 * ordered validation, and the `mailto:` URI the browser is sent to. Every
 * observable thing the handler does is an Effect; the two timers appear as
 * Wait effects in the order they fire.
 */
module Contact {
  import opened Wrappers
  import opened JsString
  import opened UriComponent
  import MailtoUri

  const ReceiverEmail: string := "jeffrey_autentico@sjp2cd.edu.ph"
  const DefaultSubject: string := "New message from portfolio"
  const MinMessageLength: nat := 10

  const NameError: string := "Please enter your name."
  const EmailError: string := "Please enter a valid email address."
  const MessageError: string := "Please enter a message (10+ characters)."
  const SendingLabel: string := "Sending..."
  const ReadyStatus: string :=
    "Message ready \U{2014} opening your mail app to send. If nothing happens, copy-paste your message into email."
  const ClearedStatus: string :=
    "Message cleared \U{2014} thanks! If you used your mail app, your email should be queued."

  /** The line break the body template writes already encoded. */
  const EncodedCrLf: string := "%0D%0A"

  const SendDelay: nat := 750
  const ResetDelay: nat := 900

  // ---------------------------------------------------------------------------
  // validateEmail: /^[^\s@]+@[^\s@]+\.[^\s@]+$/

  /** A run the class [^\s@] accepts at every position. */
  predicate Atom(t: string) {
    forall k :: 0 <= k < |t| ==> t[k] != '@' && !IsSpace(t[k])
  }

  /** The regular expression read declaratively: s is A@B.C with A, B and C
      non-empty runs of characters other than white space and '@'. */
  ghost predicate EmailPattern(s: string) {
    exists i, j :: 0 < i && i + 1 < j && j + 1 < |s| && s[i] == '@' && s[j] == '.' &&
      Atom(s[..i]) && Atom(s[i + 1..j]) && Atom(s[j + 1..])
  }

  predicate NoSpace(s: string) {
    forall k :: 0 <= k < |s| ==> !IsSpace(s[k])
  }

  /** The regular expression decided by one scan: no white space, a single '@'
      that is not first, and a '.' in the domain with a character on either
      side. */
  predicate EmailScan(s: string) {
    var i := IndexOf(s, '@');
    NoSpace(s) && 0 < i && i + 4 <= |s| && '@' !in s[i + 1..] && '.' in s[i + 2..|s| - 1]
  }

  /** validateEmail: accepts exactly the strings of the form A@B.C. */
  function ValidateEmail(s: string): (r: bool)
    ensures r <==> EmailPattern(s)
    ensures r ==> NoSpace(s)
  {
    EmailScanIsPattern(s);
    EmailScan(s)
  }

  lemma EmailScanSound(s: string)
    requires EmailScan(s)
    ensures EmailPattern(s)
  {
    var i := IndexOf(s, '@');
    var d := s[i + 2..|s| - 1];
    var k :| 0 <= k < |d| && d[k] == '.';
    var j := i + 2 + k;
    assert s[j] == '.';
    assert Atom(s[..i]);
    var after := s[i + 1..];
    var b := s[i + 1..j];
    var c := s[j + 1..];
    assert Atom(b) by {
      forall m | 0 <= m < |b| ensures b[m] != '@' {
        assert b[m] == after[m];
      }
    }
    assert Atom(c) by {
      forall m | 0 <= m < |c| ensures c[m] != '@' {
        assert c[m] == after[m + j - i];
      }
    }
  }

  /** Where each character of A@B.C sits. */
  lemma PatternParts(s: string, i: int, j: int, k: int)
    requires 0 < i && i + 1 < j && j + 1 < |s| && s[i] == '@' && s[j] == '.'
    requires Atom(s[..i]) && Atom(s[i + 1..j]) && Atom(s[j + 1..])
    requires 0 <= k < |s|
    ensures !IsSpace(s[k])
    ensures s[k] == '@' <==> k == i
  {
    if k < i {
      assert s[k] == s[..i][k];
    } else if i < k < j {
      assert s[k] == s[i + 1..j][k - i - 1];
    } else if j < k {
      assert s[k] == s[j + 1..][k - j - 1];
    }
  }

  lemma EmailScanComplete(s: string)
    requires EmailPattern(s)
    ensures EmailScan(s)
  {
    var i, j :| 0 < i && i + 1 < j && j + 1 < |s| && s[i] == '@' && s[j] == '.' &&
      Atom(s[..i]) && Atom(s[i + 1..j]) && Atom(s[j + 1..]);
    forall k | 0 <= k < |s| ensures !IsSpace(s[k]) && (s[k] == '@' <==> k == i) {
      PatternParts(s, i, j, k);
    }
    assert IndexOf(s, '@') == i;
    var after := s[i + 1..];
    assert '@' !in after by {
      forall m | 0 <= m < |after| ensures after[m] != '@' {
        assert after[m] == s[m + i + 1];
      }
    }
    assert s[i + 2..|s| - 1][j - i - 2] == '.';
  }

  /** The scan accepts exactly the strings of the form A@B.C. */
  lemma EmailScanIsPattern(s: string)
    ensures EmailScan(s) <==> EmailPattern(s)
  {
    if EmailScan(s) { EmailScanSound(s); }
    if EmailPattern(s) { EmailScanComplete(s); }
  }

  /** An accepted address has no white space and exactly one '@'. */
  lemma AcceptedEmailShape(s: string)
    requires ValidateEmail(s)
    ensures EmailScan(s)
    ensures NoSpace(s)
    ensures exists i :: 0 <= i < |s| && s[i] == '@' && forall k :: 0 <= k < |s| && s[k] == '@' ==> k == i
  {
    var i := IndexOf(s, '@');
    var after := s[i + 1..];
    assert forall k :: i < k < |s| ==> s[k] == after[k - i - 1];
  }

  // ---------------------------------------------------------------------------
  // The submit handler

  /** The values the handler reads; the honeypot field may be missing. */
  datatype Form = Form(honeypot: Option<string>, name: string, email: string,
                       subject: string, message: string)

  datatype Field = NameField | EmailField | MessageField

  datatype StatusKind = Error | Success | Info

  /** What the handler does to the page, in order. */
  datatype Effect =
    | ShowStatus(text: string, kind: StatusKind)
    | Focus(field: Field)
    | DisableSubmit
    | SetSubmitLabel(caption: string)
    | RestoreSubmitLabel
    | EnableSubmit
    | ResetForm
    | Wait(ms: nat)
    | Navigate(uri: string)

  datatype Verdict =
    | Ignored
    | Rejected(field: Field, error: string)
    | Accepted(name: string, email: string, subject: string, message: string)

  predicate HoneypotFilled(f: Form) {
    f.honeypot.Some? && Trim(f.honeypot.value) != ""
  }

  /** The trimmed subject, or the default when it is blank. */
  function SubjectOrDefault(subject: string): (r: string)
    ensures r != ""
    ensures SpaceBetween(subject, 0, |subject|) ==> r == DefaultSubject
    ensures !SpaceBetween(subject, 0, |subject|) ==> r == Trim(subject)
  {
    TrimEmpty(subject);
    var t := Trim(subject);
    if t == "" then DefaultSubject else t
  }

  predicate NameOk(f: Form) { Trim(f.name) != "" }
  predicate EmailOk(f: Form) { ValidateEmail(Trim(f.email)) }
  predicate MessageOk(f: Form) { |Trim(f.message)| >= MinMessageLength }

  /** The guard and the three checks, in the handler's order: the first
      failing check decides, and a form passing all three is accepted with its
      trimmed fields and the subject or its default. */
  function Validate(f: Form): (v: Verdict)
    ensures v == Ignored <==> HoneypotFilled(f)
    ensures !HoneypotFilled(f) && !NameOk(f) ==> v == Rejected(NameField, NameError)
    ensures !HoneypotFilled(f) && NameOk(f) && !EmailOk(f) ==> v == Rejected(EmailField, EmailError)
    ensures !HoneypotFilled(f) && NameOk(f) && EmailOk(f) && !MessageOk(f) ==>
      v == Rejected(MessageField, MessageError)
    ensures v.Accepted? <==> !HoneypotFilled(f) && NameOk(f) && EmailOk(f) && MessageOk(f)
    ensures v.Accepted? ==>
      v == Accepted(Trim(f.name), Trim(f.email), SubjectOrDefault(f.subject), Trim(f.message))
  {
    if HoneypotFilled(f) then Ignored
    else
      var name := Trim(f.name);
      var email := Trim(f.email);
      var subject := SubjectOrDefault(f.subject);
      var message := Trim(f.message);
      if name == "" then Rejected(NameField, NameError)
      else if email == "" || !ValidateEmail(email) then Rejected(EmailField, EmailError)
      else if message == "" || |message| < MinMessageLength then Rejected(MessageField, MessageError)
      else Accepted(name, email, subject, message)
  }

  /** The body template: two lines and a message, separated by the line
      break sep, with an empty line before the message. */
  function JoinLines(p1: string, p2: string, sep: string, m: string): string {
    p1 + (sep + (p2 + (sep + (sep + m))))
  }

  /** The mail text the body hfield is meant to carry. */
  function BodyText(name: string, email: string, message: string): string {
    JoinLines("Name: " + name, "Email: " + email, "\r\n", message)
  }

  /** The body hfield as the handler writes it: name and email raw, the
      message encoded, lines separated by an encoded CR LF. It holds no
      hfield or fragment delimiter when the raw parts hold none, and decodes
      to the intended mail text when they hold no '%'. */
  function MailBody(name: string, email: string, message: string): (b: string)
    ensures SafeRaw(name) && SafeRaw(email) ==> '&' !in b && '#' !in b
    ensures '%' !in name && '%' !in email ==>
      DecodeURIComponent(b) == Some(BodyText(name, email, message))
  {
    BodyAvoidsDelimiters(name, email, message);
    BodyDecodes(name, email, message);
    JoinLines("Name: " + name, "Email: " + email, EncodedCrLf, EncodeURIComponent(message))
  }

  lemma BodyAvoidsDelimiters(name: string, email: string, message: string)
    ensures var b := JoinLines("Name: " + name, "Email: " + email, EncodedCrLf, EncodeURIComponent(message));
      SafeRaw(name) && SafeRaw(email) ==> '&' !in b && '#' !in b
  {
    var m := EncodeURIComponent(message);
    EncodedHasNoDelimiters(message);
    LinesAvoid("Name: " + name, "Email: " + email, EncodedCrLf, m, '&');
    LinesAvoid("Name: " + name, "Email: " + email, EncodedCrLf, m, '#');
  }

  lemma BodyDecodes(name: string, email: string, message: string)
    ensures var b := JoinLines("Name: " + name, "Email: " + email, EncodedCrLf, EncodeURIComponent(message));
      '%' !in name && '%' !in email ==> DecodeURIComponent(b) == Some(BodyText(name, email, message))
  {
    DecodeLines("Name: " + name, "Email: " + email, message);
  }

  /** The link around an already encoded subject and a body hfield. A subject
      free of '&' and '#' always reads back as the first hfield after the
      receiver; a body free of them too reads back as the second and last. */
  function LinkOf(encodedSubject: string, body: string): (u: string)
    ensures '&' !in encodedSubject && '#' !in encodedSubject ==>
      var m := MailtoUri.ParseMailto(u);
      && m.Some? && m.value.to == ReceiverEmail && |m.value.headers| >= 2
      && m.value.headers[0] == MailtoUri.Header("subject", encodedSubject)
    ensures '&' !in encodedSubject && '#' !in encodedSubject && '&' !in body && '#' !in body ==>
      MailtoUri.ParseMailto(u) == Some(MailtoUri.Mailto(ReceiverEmail,
        [MailtoUri.Header("subject", encodedSubject), MailtoUri.Header("body", body)]))
  {
    LinkSubjectReadsBack(encodedSubject, body);
    LinkReadsBack(encodedSubject, body);
    "mailto:" + ReceiverEmail + "?subject=" + encodedSubject + "&body=" + body
  }

  /** The link the handler navigates to. Whatever the raw name and email
      hold, it reads back with the receiver as recipient and, first, the
      subject hfield, which decodes to the subject. */
  function MailtoLink(subject: string, name: string, email: string, message: string): (u: string)
    ensures var m := MailtoUri.ParseMailto(u);
      && m.Some? && m.value.to == ReceiverEmail && |m.value.headers| >= 2
      && m.value.headers[0] == MailtoUri.Header("subject", EncodeURIComponent(subject))
      && DecodeURIComponent(m.value.headers[0].value) == Some(subject)
  {
    EncodedHasNoDelimiters(subject);
    DecodeEncode(subject);
    LinkOf(EncodeURIComponent(subject), MailBody(name, email, message))
  }

  /** The submit handler, timers included. */
  function Submit(f: Form): (effects: seq<Effect>)
    ensures effects == [] <==> HoneypotFilled(f)
  {
    match Validate(f)
    case Ignored => []
    case Rejected(field, error) => [ShowStatus(error, Error), Focus(field)]
    case Accepted(name, email, subject, message) =>
      AcceptedEffects(MailtoLink(subject, name, email, message))
  }

  /** The accepted path: lock the button, wait, announce, navigate, wait,
      restore the button, clear the form. The button is locked before the
      first wait, the success status comes before the link, the link is the
      one navigation, between the two waits, and the button and the form are
      restored only after the second. */
  function AcceptedEffects(link: string): (e: seq<Effect>)
    ensures |e| == 10
    ensures e[..3] == [DisableSubmit, SetSubmitLabel(SendingLabel), Wait(SendDelay)]
    ensures e[3] == ShowStatus(ReadyStatus, Success)
    ensures e[4] == Navigate(link)
    ensures e[5] == Wait(ResetDelay)
    ensures e[6..] == [EnableSubmit, RestoreSubmitLabel, ResetForm, ShowStatus(ClearedStatus, Info)]
    ensures forall k :: 0 <= k < |e| && k != 4 ==> !e[k].Navigate?
  {
    [ DisableSubmit, SetSubmitLabel(SendingLabel),
      Wait(SendDelay),
      ShowStatus(ReadyStatus, Success), Navigate(link),
      Wait(ResetDelay),
      EnableSubmit, RestoreSubmitLabel, ResetForm, ShowStatus(ClearedStatus, Info) ]
  }

  // ---------------------------------------------------------------------------
  // Properties of the handler

  /** The first failing check, in the order name, email, message, shows its own
      message, focuses its own field and ends the handler. */
  lemma ValidationOrder(f: Form)
    requires !HoneypotFilled(f)
    ensures !NameOk(f) ==> Submit(f) == [ShowStatus(NameError, Error), Focus(NameField)]
    ensures NameOk(f) && !EmailOk(f) ==> Submit(f) == [ShowStatus(EmailError, Error), Focus(EmailField)]
    ensures NameOk(f) && EmailOk(f) && !MessageOk(f) ==>
      Submit(f) == [ShowStatus(MessageError, Error), Focus(MessageField)]
    ensures Validate(f).Accepted? <==> NameOk(f) && EmailOk(f) && MessageOk(f)
  {
  }

  lemma SubmitOnAccept(f: Form, name: string, email: string, subject: string, message: string)
    requires Validate(f) == Accepted(name, email, subject, message)
    ensures Submit(f) == AcceptedEffects(MailtoLink(subject, name, email, message))
  {
  }

  /** An accepted submission runs the accepted path with the mailto link of the
      trimmed fields and the subject or its default. */
  lemma AcceptedSubmission(f: Form)
    requires !HoneypotFilled(f) && NameOk(f) && EmailOk(f) && MessageOk(f)
    ensures Submit(f) == AcceptedEffects(MailtoLink(SubjectOrDefault(f.subject), Trim(f.name), Trim(f.email), Trim(f.message)))
  {
    SubmitOnAccept(f, Trim(f.name), Trim(f.email), SubjectOrDefault(f.subject), Trim(f.message));
  }

  // ---------------------------------------------------------------------------
  // The mailto link read back

  /** Characters a raw name or email may contain and still read back. */
  predicate SafeRaw(t: string) {
    '&' !in t && '#' !in t && '%' !in t
  }

  /** The encoded line break decodes to CR LF, whatever follows it. */
  lemma DecodeCrLfPrefix(rest: string)
    ensures DecodeURIComponent(EncodedCrLf + rest) == Prefixed("\r\n", DecodeURIComponent(rest))
  {
    CrLfEncoding();
    DecodeEncodedPrefix("\r\n", rest);
  }

  /** Two plain lines and an encoded message, joined by encoded line breaks,
      decode to the lines joined by CR LF. */
  lemma DecodeLines(p1: string, p2: string, message: string)
    ensures '%' !in p1 && '%' !in p2 ==>
      DecodeURIComponent(JoinLines(p1, p2, EncodedCrLf, EncodeURIComponent(message)))
      == Some(JoinLines(p1, p2, "\r\n", message))
  {
    if '%' in p1 || '%' in p2 { return; }
    var m := EncodeURIComponent(message);
    var t3 := EncodedCrLf + m;
    var t2 := EncodedCrLf + t3;
    var t1 := p2 + t2;
    var t0 := EncodedCrLf + t1;
    DecodeEncode(message);
    DecodeCrLfPrefix(m);
    DecodeCrLfPrefix(t3);
    DecodePlainPrefix(p2, t2);
    DecodeCrLfPrefix(t1);
    DecodePlainPrefix(p1, t0);
  }

  /** Lines built from parts without c hold no c. */
  lemma LinesAvoid(p1: string, p2: string, sep: string, m: string, c: char)
    ensures c !in p1 && c !in p2 && c !in sep && c !in m ==> c !in JoinLines(p1, p2, sep, m)
  {
  }

  /** The receiver holds neither a query nor a fragment delimiter. */
  lemma ReceiverPlain()
    ensures '?' !in ReceiverEmail && '#' !in ReceiverEmail
  {
  }

  /** The link as the parser's pieces: scheme, recipient, two hfields. */
  lemma LinkPieces(s: string, b: string)
    ensures "mailto:" + ReceiverEmail + "?subject=" + s + "&body=" + b
         == MailtoUri.Scheme + ReceiverEmail + "?" + "subject" + "=" + s + "&" + "body" + "=" + b
  {
    assert "?subject=" == "?" + "subject" + "=";
    assert "&body=" == "&" + "body" + "=";
  }

  /** A subject free of '&' and '#' reads back as the first hfield of the
      link, whatever the body holds. */
  lemma LinkSubjectReadsBack(s: string, b: string)
    ensures '&' !in s && '#' !in s ==>
      var m := MailtoUri.ParseMailto("mailto:" + ReceiverEmail + "?subject=" + s + "&body=" + b);
      && m.Some? && m.value.to == ReceiverEmail && |m.value.headers| >= 2
      && m.value.headers[0] == MailtoUri.Header("subject", s)
  {
    if '&' in s || '#' in s { return; }
    ReceiverPlain();
    var tail := "body=" + b;
    var pre := MailtoUri.Scheme + ReceiverEmail + "?" + "subject" + "=" + s + "&";
    assert "mailto:" + ReceiverEmail + "?subject=" + s + "&body=" + b == pre + tail by {
      assert "?subject=" == "?" + "subject" + "=";
      assert "&body=" == "&" + "body=";
    }
    MailtoUri.ParseFirstHeader(ReceiverEmail, "subject", s, tail);
  }

  /** A subject and a body free of '&' and '#' read back as exactly the two
      hfields of the link. */
  lemma LinkReadsBack(s: string, b: string)
    ensures '&' !in s && '#' !in s && '&' !in b && '#' !in b ==>
      MailtoUri.ParseMailto("mailto:" + ReceiverEmail + "?subject=" + s + "&body=" + b)
      == Some(MailtoUri.Mailto(ReceiverEmail, [MailtoUri.Header("subject", s), MailtoUri.Header("body", b)]))
  {
    if '&' in s || '#' in s || '&' in b || '#' in b { return; }
    LinkPieces(s, b);
    ReceiverPlain();
    MailtoUri.ParseTwoHeaders(ReceiverEmail, "subject", s, "body", b);
  }

  /** When the raw name and email avoid '&', '#' and '%', the mailto link reads
      back as the receiver with a subject and a body hfield that decode to the
      subject and the intended mail text. */
  lemma MailtoRoundTrip(subject: string, name: string, email: string, message: string)
    requires SafeRaw(name) && SafeRaw(email)
    ensures MailtoUri.ParseMailto(MailtoLink(subject, name, email, message)) ==
      Some(MailtoUri.Mailto(ReceiverEmail, [MailtoUri.Header("subject", EncodeURIComponent(subject)),
                                            MailtoUri.Header("body", MailBody(name, email, message))]))
    ensures DecodeURIComponent(EncodeURIComponent(subject)) == Some(subject)
    ensures DecodeURIComponent(MailBody(name, email, message)) == Some(BodyText(name, email, message))
  {
    EncodedHasNoDelimiters(subject);
    DecodeEncode(subject);
  }

  /** What follows the first raw '&' of a name in the body. */
  function BodyAfterName(b: string, email: string, message: string): string {
    b + (EncodedCrLf + (("Email: " + email) + (EncodedCrLf + (EncodedCrLf + EncodeURIComponent(message)))))
  }

  lemma BodyAfterNameAvoids(b: string, email: string, message: string, c: char)
    requires c !in b && c !in email && c !in EncodeURIComponent(message)
    requires c !in "Email: " && c !in EncodedCrLf
    ensures c !in BodyAfterName(b, email, message)
  {
  }

  /** A raw '&' in the name splits the body where it stands. */
  lemma AmpersandBody(a: string, b: string, email: string, message: string)
    ensures MailBody(a + "&" + b, email, message) == ("Name: " + a) + "&" + BodyAfterName(b, email, message)
  {
  }

  /** A body holding one '&' reads back as a body hfield and a third hfield. */
  lemma LinkOfSplitBody(s: string, p: string, rest: string)
    requires '&' !in s && '#' !in s && '&' !in p && '#' !in p && '&' !in rest && '#' !in rest && '=' !in rest
    ensures MailtoUri.ParseMailto(LinkOf(s, p + "&" + rest)) ==
      Some(MailtoUri.Mailto(ReceiverEmail,
        [MailtoUri.Header("subject", s), MailtoUri.Header("body", p), MailtoUri.Header(rest, "")]))
  {
    var x := MailtoUri.Scheme + ReceiverEmail + "?" + "subject" + "=" + s + "&" + "body" + "=";
    var u := x + p + "&" + rest;
    assert MailtoUri.ParseMailto(u) == Some(MailtoUri.Mailto(ReceiverEmail,
        [MailtoUri.Header("subject", s), MailtoUri.Header("body", p), MailtoUri.Header(rest, "")])) by {
      ReceiverPlain();
      MailtoUri.ParseThreeHeaders(ReceiverEmail, "subject", s, "body", p, rest);
    }
    SplitBodyPieces(s, p, rest);
  }

  /** The link around a body holding one '&', as the parser's pieces. */
  lemma SplitBodyPieces(s: string, p: string, rest: string)
    ensures "mailto:" + ReceiverEmail + "?subject=" + s + "&body=" + (p + "&" + rest)
         == MailtoUri.Scheme + ReceiverEmail + "?" + "subject" + "=" + s + "&" + "body" + "=" + p + "&" + rest
  {
    var x := MailtoUri.Scheme + ReceiverEmail + "?" + "subject" + "=" + s + "&" + "body" + "=";
    assert "mailto:" + ReceiverEmail + "?subject=" + s + "&body=" == x by {
      assert "?subject=" == "?" + "subject" + "=";
      assert "&body=" == "&" + "body" + "=";
    }
    assert x + (p + "&" + rest) == x + p + "&" + rest;
  }

  /** A raw '&' in the name ends the body hfield there: the rest of the body
      becomes a third hfield and the mail text loses everything after it. */
  lemma AmpersandInNameSplitsBody(subject: string, a: string, b: string, email: string, message: string)
    requires SafeRaw(a) && SafeRaw(b) && '=' !in b && SafeRaw(email) && '=' !in email
    ensures var u := MailtoUri.ParseMailto(MailtoLink(subject, a + "&" + b, email, message));
      && u.Some? && |u.value.headers| == 3
      && u.value.headers[1] == MailtoUri.Header("body", "Name: " + a)
      && DecodeURIComponent(u.value.headers[1].value) == Some("Name: " + a)
  {
    var p := "Name: " + a;
    var rest := BodyAfterName(b, email, message);
    var s := EncodeURIComponent(subject);
    AmpersandLink(subject, a, b, email, message);
    RestAvoids(subject, b, email, message);
    LinkOfSplitBody(s, p, rest);
    NameLineDecodes(a);
  }

  /** With a raw '&' in the name, the link is the one around the name line
      before it, '&', and the rest of the body. */
  lemma AmpersandLink(subject: string, a: string, b: string, email: string, message: string)
    ensures MailtoLink(subject, a + "&" + b, email, message)
         == LinkOf(EncodeURIComponent(subject), ("Name: " + a) + "&" + BodyAfterName(b, email, message))
  {
    AmpersandBody(a, b, email, message);
  }

  /** The encoded subject and the rest of the body after the name's '&' hold
      no delimiter. */
  lemma RestAvoids(subject: string, b: string, email: string, message: string)
    requires SafeRaw(b) && '=' !in b && SafeRaw(email) && '=' !in email
    ensures var rest := BodyAfterName(b, email, message);
      '&' !in rest && '#' !in rest && '=' !in rest
    ensures '&' !in EncodeURIComponent(subject) && '#' !in EncodeURIComponent(subject)
    ensures '=' !in EncodeURIComponent(subject)
  {
    EncodedHasNoDelimiters(subject);
    EncodedHasNoDelimiters(message);
    BodyAfterNameAvoids(b, email, message, '&');
    BodyAfterNameAvoids(b, email, message, '#');
    BodyAfterNameAvoids(b, email, message, '=');
  }

  /** A name line without '%' decodes to itself. */
  lemma NameLineDecodes(a: string)
    requires '%' !in a
    ensures DecodeURIComponent("Name: " + a) == Some("Name: " + a)
  {
    var p := "Name: " + a;
    DecodePlainPrefix(p, "");
    assert p + "" == p;
  }
}
