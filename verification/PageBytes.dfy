/** Mapped memory as a sequence of characters, and the C string at the start of each page. */
module PageBytes {

  // What `%s` prints: everything before the first NUL.
  function CString(s: seq<char>): string {
    if s == [] || s[0] == '\0' then "" else [s[0]] + CString(s[1..])
  }

  predicate NulFree(t: string) {
    '\0' !in t
  }

  function Start(page: nat, pageSize: nat): nat {
    page * pageSize
  }

  lemma PagesApart(p: nat, q: nat, pageSize: nat)
    requires p < q
    ensures Start(p, pageSize) + pageSize == Start(p + 1, pageSize) <= Start(q, pageSize)
  {
    if p + 1 < q {
      PagesApart(p, q - 1, pageSize);
    }
  }

  lemma PagesOrdered(p: nat, q: nat, pageSize: nat)
    requires p <= q
    ensures Start(p, pageSize) <= Start(q, pageSize)
  {
    if p < q {
      PagesApart(p, q, pageSize);
    }
  }

  ghost predicate HasNul(bytes: seq<char>, page: nat, pageSize: nat) {
    exists k :: Start(page, pageSize) <= k < Start(page, pageSize) + pageSize && k < |bytes| && bytes[k] == '\0'
  }

  // Every page but one has a NUL.
  ghost predicate MappedBut(bytes: seq<char>, pages: nat, page: nat, pageSize: nat) {
    && |bytes| == Start(pages, pageSize)
    && forall q | 0 <= q < pages && q != page :: HasNul(bytes, q, pageSize)
  }

  ghost predicate Mapped(bytes: seq<char>, pages: nat, pageSize: nat) {
    && |bytes| == Start(pages, pageSize)
    && forall page | 0 <= page < pages :: HasNul(bytes, page, pageSize)
  }

  function TextAt(bytes: seq<char>, page: nat, pageSize: nat): string {
    if Start(page, pageSize) <= |bytes| then CString(bytes[Start(page, pageSize)..]) else ""
  }

  function Texts(bytes: seq<char>, pages: nat, pageSize: nat): seq<string> {
    seq(pages, page requires page >= 0 => TextAt(bytes, page, pageSize))
  }

  lemma {:induction false} CStringOf(t: string, rest: seq<char>)
    requires NulFree(t)
    ensures CString(t + ['\0'] + rest) == t
  {
    var s := t + ['\0'] + rest;
    if t != "" {
      assert s[1..] == t[1..] + ['\0'] + rest;
      CStringOf(t[1..], rest);
    }
  }

  // A C string is decided by the characters up to any NUL.
  lemma {:induction false} CStringAgree(s: seq<char>, t: seq<char>, k: nat)
    requires k < |s| && k < |t| && s[k] == '\0' && s[..k + 1] == t[..k + 1]
    ensures CString(s) == CString(t)
  {
    assert s[0] == s[..k + 1][0] == t[..k + 1][0] == t[0];
    if s[0] != '\0' {
      assert s[1..][..k] == s[..k + 1][1..] == t[..k + 1][1..] == t[1..][..k];
      CStringAgree(s[1..], t[1..], k - 1);
    }
  }

  // A C string has no NUL and stops before the first one.
  lemma {:induction false} CStringBounded(s: seq<char>, k: nat)
    requires k < |s| && s[k] == '\0'
    ensures |CString(s)| <= k && NulFree(CString(s))
    ensures CString(s) == s[..|CString(s)|] && s[|CString(s)|] == '\0'
  {
    if s[0] != '\0' {
      CStringBounded(s[1..], k - 1);
    }
  }

  lemma TextBounded(bytes: seq<char>, pages: nat, page: nat, pageSize: nat)
    requires page < pages && Mapped(bytes, pages, pageSize)
    ensures Start(page, pageSize) + pageSize <= |bytes|
    ensures var t := TextAt(bytes, page, pageSize); NulFree(t) && |t| < pageSize
    ensures
      var t, at := TextAt(bytes, page, pageSize), Start(page, pageSize);
      t == bytes[at..at + |t|] && bytes[at + |t|] == '\0'
  {
    PagesApart(page, pages, pageSize);
    hide Start;
    assert HasNul(bytes, page, pageSize);
    var at := Start(page, pageSize);
    var k :| at <= k < at + pageSize && k < |bytes| && bytes[k] == '\0';
    var s := bytes[at..];
    assert s[k - at] == '\0';
    CStringBounded(s, k - at);
    var t := CString(s);
    assert t == TextAt(bytes, page, pageSize);
    assert s[..|t|] == bytes[at..at + |t|] && s[|t|] == bytes[at + |t|];
  }

  // The bytes from `at` on are the text and then a NUL.
  predicate SpellsAt(bytes: seq<char>, at: int, text: string) {
    && 0 <= at && at + |text| < |bytes| && bytes[at + |text|] == '\0'
    && forall k | 0 <= k < |text| :: bytes[at + k] == text[k] != '\0'
  }

  lemma {:induction false} TextSpells(bytes: seq<char>, pages: nat, page: nat, pageSize: nat)
    requires page < pages && Mapped(bytes, pages, pageSize)
    ensures SpellsAt(bytes, page * pageSize, TextAt(bytes, page, pageSize))
  {
    TextBounded(bytes, pages, page, pageSize);
    var at, t := Start(page, pageSize), TextAt(bytes, page, pageSize);
    assert forall k | 0 <= k < |t| :: bytes[at + k] == bytes[at..at + |t|][k] == t[k] && t[k] in t;
  }

  /** Changing bytes of one page only leaves every other page's text alone. */
  lemma {:induction false} OtherPage(before: seq<char>, after: seq<char>, pages: nat, page: nat, q: nat, pageSize: nat)
    requires page < pages && q < pages && q != page && |after| == |before|
    requires HasNul(before, q, pageSize)
    requires
      var at := Start(page, pageSize);
      at + pageSize <= |before| && after[..at] == before[..at] && after[at + pageSize..] == before[at + pageSize..]
    ensures HasNul(after, q, pageSize) && TextAt(after, q, pageSize) == TextAt(before, q, pageSize)
  {
    var at, from := Start(page, pageSize), Start(q, pageSize);
    var k :| from <= k < from + pageSize && k < |before| && before[k] == '\0';
    if q < page {
      PagesApart(q, page, pageSize);
      assert forall i | 0 <= i < at :: before[i] == before[..at][i] && after[i] == after[..at][i];
    } else {
      PagesApart(page, q, pageSize);
      var end := at + pageSize;
      assert forall i | end <= i < |before| :: before[i] == before[end..][i - end] && after[i] == after[end..][i - end];
    }
    assert forall i | from <= i <= k :: after[i] == before[i];
    CStringAgree(before[from..], after[from..], k - from);
  }

  /** Writing a message and its NUL over the start of a page changes that page's text to
      the message, whatever bytes were there, a NUL among them or not, and no other text. */
  lemma StoreText(before: seq<char>, after: seq<char>, pages: nat, page: nat, pageSize: nat, message: string)
    requires page < pages && MappedBut(before, pages, page, pageSize)
    requires NulFree(message) && |message| < pageSize
    requires
      var at := Start(page, pageSize);
      at + pageSize <= |before| && after == before[..at] + message + ['\0'] + before[at + |message| + 1..]
    ensures Mapped(after, pages, pageSize)
    ensures Texts(after, pages, pageSize) == Texts(before, pages, pageSize)[page := message]
  {
    var at := Start(page, pageSize);
    assert after[at..] == message + ['\0'] + before[at + |message| + 1..];
    CStringOf(message, before[at + |message| + 1..]);
    assert after[at + |message|] == '\0';
    forall q | 0 <= q < pages && q != page
      ensures HasNul(after, q, pageSize) && TextAt(after, q, pageSize) == TextAt(before, q, pageSize)
    {
      OtherPage(before, after, pages, page, q, pageSize);
    }
  }

  /** Discarding a page leaves zeros: an empty text there, the others untouched. */
  lemma DiscardText(before: seq<char>, after: seq<char>, pages: nat, page: nat, pageSize: nat)
    requires page < pages && pageSize > 0 && MappedBut(before, pages, page, pageSize)
    requires
      var at := Start(page, pageSize);
      && at + pageSize <= |before| == |after|
      && after[..at] == before[..at] && after[at + pageSize..] == before[at + pageSize..]
      && (forall i | at <= i < at + pageSize :: after[i] == '\0')
    ensures Mapped(after, pages, pageSize)
    ensures Texts(after, pages, pageSize) == Texts(before, pages, pageSize)[page := ""]
  {
    assert after[Start(page, pageSize)] == '\0';
    forall q | 0 <= q < pages && q != page
      ensures HasNul(after, q, pageSize) && TextAt(after, q, pageSize) == TextAt(before, q, pageSize)
    {
      OtherPage(before, after, pages, page, q, pageSize);
    }
  }

  lemma ZeroedText(bytes: seq<char>, pages: nat, pageSize: nat)
    requires pageSize > 0 && |bytes| == Start(pages, pageSize)
    requires forall i | 0 <= i < |bytes| :: bytes[i] == '\0'
    ensures Mapped(bytes, pages, pageSize)
    ensures Texts(bytes, pages, pageSize) == seq(pages, _ => "")
  {
    forall page | 0 <= page < pages
      ensures HasNul(bytes, page, pageSize) && TextAt(bytes, page, pageSize) == ""
    {
      PagesApart(page, pages, pageSize);
      assert bytes[Start(page, pageSize)] == '\0';
    }
  }
}
