/**
 * A lenient reader for `mailto:` URIs, the partner against which the contact
 * form's mailto serialiser is checked. It drops everything from the first
 * '#', takes the recipient before the first '?', splits the rest at every
 * '&' into hfields and each hfield at its first '=' into name and value.
 * It does not check the character classes of RFC 6068 (the form's own link
 * holds a raw space in "&body=Name: "), and values are returned still
 * percent-encoded.
 */
module MailtoUri {
  import opened Wrappers
  import opened JsString

  datatype Header = Header(name: string, value: string)
  datatype Mailto = Mailto(to: string, headers: seq<Header>)

  const Scheme: string := "mailto:"

  /** The part of s before the first c (all of s when there is none). */
  function BeforeFirst(s: string, c: char): (r: string)
    ensures c !in s ==> r == s
    ensures c !in r
  {
    s[..IndexOf(s, c)]
  }

  /** The part of s after the first c (empty when there is none). */
  function AfterFirst(s: string, c: char): (r: string)
    ensures c in s ==> s == BeforeFirst(s, c) + [c] + r
  {
    var i := IndexOf(s, c);
    if i < |s| then s[i + 1..] else ""
  }

  /** s cut at every sep: String.prototype.split with a one-character separator. */
  function SplitOn(s: string, sep: char): (parts: seq<string>)
    ensures |parts| >= 1
    decreases |s|
  {
    var i := IndexOf(s, sep);
    if i == |s| then [s] else [s[..i]] + SplitOn(s[i + 1..], sep)
  }

  /** One hfield: the name before the first '=', the value after it. */
  function ParseHeader(f: string): Header {
    Header(BeforeFirst(f, '='), AfterFirst(f, '='))
  }

  function ParseHeaders(query: string): (hs: seq<Header>)
    ensures |hs| == |SplitOn(query, '&')|
  {
    var fields := SplitOn(query, '&');
    seq(|fields|, i requires 0 <= i < |fields| => ParseHeader(fields[i]))
  }

  function ParseMailto(u: string): Option<Mailto> {
    if |u| < |Scheme| || u[..|Scheme|] != Scheme then None
    else
      var rest := BeforeFirst(u[|Scheme|..], '#');
      if '?' !in rest then Some(Mailto(rest, []))
      else Some(Mailto(BeforeFirst(rest, '?'), ParseHeaders(AfterFirst(rest, '?'))))
  }

  // ---------------------------------------------------------------------------
  // Properties

  lemma BeforeAfterOfJoin(a: string, c: char, b: string)
    requires c !in a
    ensures BeforeFirst(a + [c] + b, c) == a
    ensures AfterFirst(a + [c] + b, c) == b
  {
    var s := a + [c] + b;
    assert s[|a|] == c;
    assert IndexOf(s, c) == |a|;
  }

  /** A prefix without c is kept whole by BeforeFirst. */
  lemma BeforeFirstPrefix(a: string, c: char, b: string)
    requires c !in a
    ensures BeforeFirst(a + b, c) == a + BeforeFirst(b, c)
  {
    var s := a + b;
    var j := IndexOf(b, c);
    assert forall k :: 0 <= k < |a| ==> s[k] == a[k];
    assert forall k :: |a| <= k < |s| ==> s[k] == b[k - |a|];
    var i := IndexOf(s, c);
    if j < |b| {
      assert s[|a| + j] == c;
    } else {
      assert c !in s;
    }
    assert i == |a| + j;
    assert s[..|a| + j] == a + b[..j];
  }

  lemma SplitOnJoin(a: string, sep: char, b: string)
    requires sep !in a
    ensures SplitOn(a + [sep] + b, sep) == [a] + SplitOn(b, sep)
  {
    var s := a + [sep] + b;
    assert s[|a|] == sep;
    assert IndexOf(s, sep) == |a|;
    assert s[..|a|] == a && s[|a| + 1..] == b;
  }

  lemma SplitOnNone(a: string, sep: char)
    requires sep !in a
    ensures SplitOn(a, sep) == [a]
  {
  }

  /** A recipient and a query without '#' read back as themselves. */
  lemma ParseWithQuery(to: string, query: string)
    requires '?' !in to && '#' !in to && '#' !in query
    ensures ParseMailto(Scheme + to + "?" + query) == Some(Mailto(to, ParseHeaders(query)))
  {
    var u := Scheme + to + "?" + query;
    var body := to + ['?'] + query;
    assert u == Scheme + body;
    assert u[..|Scheme|] == Scheme && u[|Scheme|..] == body;
    assert '#' !in body;
    assert body[|to|] == '?';
    BeforeAfterOfJoin(to, '?', query);
  }

  /** The hfields of a query that splits into two fields. */
  lemma HeadersOfTwo(query: string, a: string, b: string)
    requires SplitOn(query, '&') == [a, b]
    ensures ParseHeaders(query) == [ParseHeader(a), ParseHeader(b)]
  {
  }

  /** Two hfields whose parts avoid the delimiters read back as themselves. */
  lemma ParseTwoFields(n1: string, v1: string, n2: string, v2: string)
    requires '=' !in n1 && '=' !in n2 && '&' !in n1 && '&' !in n2
    requires '&' !in v1 && '&' !in v2
    ensures ParseHeaders(n1 + "=" + v1 + "&" + n2 + "=" + v2) == [Header(n1, v1), Header(n2, v2)]
  {
    var f1 := n1 + "=" + v1;
    var f2 := n2 + "=" + v2;
    var a := f1 + "&";
    assert a + n2 + "=" == a + (n2 + "=");
    assert a + (n2 + "=") + v2 == a + f2;
    assert f1 + "&" + f2 == f1 + ['&'] + f2;
    SplitOnJoin(f1, '&', f2);
    SplitOnNone(f2, '&');
    HeadersOfTwo(f1 + "&" + f2, f1, f2);
    BeforeAfterOfJoin(n1, '=', v1);
    BeforeAfterOfJoin(n2, '=', v2);
  }

  /** A URI built from a recipient and two hfields whose parts avoid the
      delimiters reads back as exactly those parts. */
  lemma ParseTwoHeaders(to: string, n1: string, v1: string, n2: string, v2: string)
    requires '?' !in to && '#' !in to
    requires '=' !in n1 && '=' !in n2 && '&' !in n1 && '&' !in n2 && '#' !in n1 && '#' !in n2
    requires '&' !in v1 && '&' !in v2 && '#' !in v1 && '#' !in v2
    ensures ParseMailto(Scheme + to + "?" + n1 + "=" + v1 + "&" + n2 + "=" + v2)
            == Some(Mailto(to, [Header(n1, v1), Header(n2, v2)]))
  {
    var query := n1 + "=" + v1 + "&" + n2 + "=" + v2;
    assert Scheme + to + "?" + n1 + "=" + v1 + "&" + n2 + "=" + v2 == Scheme + to + "?" + query;
    assert '#' !in query;
    ParseWithQuery(to, query);
    ParseTwoFields(n1, v1, n2, v2);
  }

  /** Whatever follows the first hfield, a recipient and a first hfield that
      avoid the delimiters read back as themselves, with at least one more
      hfield after it. */
  lemma ParseFirstHeader(to: string, n1: string, v1: string, tail: string)
    requires '?' !in to && '#' !in to
    requires '=' !in n1 && '&' !in n1 && '#' !in n1 && '&' !in v1 && '#' !in v1
    ensures var m := ParseMailto(Scheme + to + "?" + n1 + "=" + v1 + "&" + tail);
      && m.Some? && m.value.to == to && |m.value.headers| >= 2
      && m.value.headers[0] == Header(n1, v1)
  {
    var f1 := n1 + "=" + v1;
    var pre := to + "?" + f1 + "&";
    var u := Scheme + to + "?" + n1 + "=" + v1 + "&" + tail;
    assert u == Scheme + (pre + tail);
    assert u[..|Scheme|] == Scheme && u[|Scheme|..] == pre + tail;
    assert '#' !in pre;
    BeforeFirstPrefix(pre, '#', tail);
    var t := BeforeFirst(tail, '#');
    var q := f1 + ['&'] + t;
    assert pre + t == to + ['?'] + q by {
      ConcatAssoc(to + "?" + f1, "&", t);
      ConcatAssoc(to + "?", f1, "&" + t);
      ConcatAssoc(to, "?", f1 + ("&" + t));
      ConcatAssoc(f1, "&", t);
      ConcatAssoc(to, "?", q);
    }
    BeforeAfterOfJoin(to, '?', q);
    SplitOnJoin(f1, '&', t);
    BeforeAfterOfJoin(n1, '=', v1);
  }

  /** Three pieces without '&', joined by '&', split back into themselves. */
  lemma SplitThree(a: string, b: string, c: string)
    requires '&' !in a && '&' !in b && '&' !in c
    ensures SplitOn(a + "&" + b + "&" + c, '&') == [a, b, c]
  {
    assert a + "&" + b + "&" + c == a + ['&'] + (b + ['&'] + c);
    SplitOnJoin(a, '&', b + ['&'] + c);
    SplitOnJoin(b, '&', c);
    SplitOnNone(c, '&');
  }

  /** The hfields of a query that splits into three fields. */
  lemma HeadersOfThree(query: string, a: string, b: string, c: string)
    requires SplitOn(query, '&') == [a, b, c]
    ensures ParseHeaders(query) == [ParseHeader(a), ParseHeader(b), ParseHeader(c)]
  {
  }

  /** A third field without '=' reads back as a name with an empty value. */
  lemma ParseThreeFields(n1: string, v1: string, n2: string, v2: string, n3: string)
    requires '=' !in n1 && '=' !in n2 && '=' !in n3 && '&' !in n1 && '&' !in n2 && '&' !in n3
    requires '&' !in v1 && '&' !in v2
    ensures ParseHeaders(n1 + "=" + v1 + "&" + n2 + "=" + v2 + "&" + n3)
            == [Header(n1, v1), Header(n2, v2), Header(n3, "")]
  {
    var f1 := n1 + "=" + v1;
    var f2 := n2 + "=" + v2;
    var a := f1 + "&";
    assert a + n2 + "=" == a + (n2 + "=");
    assert a + (n2 + "=") + v2 == a + f2;
    SplitThree(f1, f2, n3);
    HeadersOfThree(f1 + "&" + f2 + "&" + n3, f1, f2, n3);
    BeforeAfterOfJoin(n1, '=', v1);
    BeforeAfterOfJoin(n2, '=', v2);
  }

  /** A recipient and three such fields read back as exactly those parts. */
  lemma ParseThreeHeaders(to: string, n1: string, v1: string, n2: string, v2: string, n3: string)
    requires '?' !in to && '#' !in to
    requires '=' !in n1 && '=' !in n2 && '=' !in n3 && '&' !in n1 && '&' !in n2 && '&' !in n3
    requires '#' !in n1 && '#' !in n2 && '#' !in n3
    requires '&' !in v1 && '&' !in v2 && '#' !in v1 && '#' !in v2
    ensures ParseMailto(Scheme + to + "?" + n1 + "=" + v1 + "&" + n2 + "=" + v2 + "&" + n3)
            == Some(Mailto(to, [Header(n1, v1), Header(n2, v2), Header(n3, "")]))
  {
    var query := n1 + "=" + v1 + "&" + n2 + "=" + v2 + "&" + n3;
    assert Scheme + to + "?" + n1 + "=" + v1 + "&" + n2 + "=" + v2 + "&" + n3 == Scheme + to + "?" + query;
    assert '#' !in query;
    ParseWithQuery(to, query);
    ParseThreeFields(n1, v1, n2, v2, n3);
  }
}
