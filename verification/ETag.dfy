/**
 Entity tags: how one is made and when a request's If-None-Match is answered with 304
 (middleware/etag.go:26-105). The definitions of entity tags, lists of them and weak
 comparison are those of sections 8.8.3, 8.8.3.2 and 13.1.2 of RFC 9110.
 */
module ETag {
  import opened Decimal
  import opened MachineWords

  // ----- the tag of a body

  const QUOTE := "\""
  const WEAK := "W/"

  /** The opaque part: the length of the body and its checksum. */
  function Content(length: nat, checksum: nat): string {
    Numeral(length) + "-" + Numeral(checksum)
  }

  function Tag(weak: bool, length: nat, checksum: nat): string {
    (if weak then WEAK else "") + QUOTE + Content(length, checksum) + QUOTE
  }

  /** Splits a content at its dash and reads both numbers back. */
  function ReadContent(s: string): (nat, nat)
    requires IsContent(s)
  {
    var d := FirstNonDigit(s);
    (Parse(s[..d]), Parse(s[d + 1..]))
  }

  predicate IsContent(s: string) {
    var d := FirstNonDigit(s);
    d < |s| && s[d] == '-' && AllDigits(s[d + 1..])
  }

  function FirstNonDigit(s: string): (d: nat)
    ensures d <= |s| && AllDigits(s[..d]) && (d < |s| ==> !IsDigit(s[d]))
  {
    if s == "" || !IsDigit(s[0]) then 0 else 1 + FirstNonDigit(s[1..])
  }

  lemma {:induction false} FirstNonDigitAt(s: string, d: nat)
    requires d < |s| && AllDigits(s[..d]) && !IsDigit(s[d])
    ensures FirstNonDigit(s) == d
  {
    if d == 0 {
    } else {
      assert IsDigit(s[..d][0]);
      assert s[1..][..d - 1] == s[..d][1..];
      FirstNonDigitAt(s[1..], d - 1);
    }
  }

  lemma ReadBack(length: nat, checksum: nat)
    ensures IsContent(Content(length, checksum)) && ReadContent(Content(length, checksum)) == (length, checksum)
  {
    var s, a, b := Content(length, checksum), Numeral(length), Numeral(checksum);
    assert s[..|a|] == a && s[|a| + 1..] == b;
    FirstNonDigitAt(s, |a|);
    ParseNumeral(length);
    ParseNumeral(checksum);
  }

  /** Two bodies get the same tag exactly if both their lengths and their checksums agree. */
  lemma SameTag(weak: bool, length: nat, checksum: nat, length': nat, checksum': nat)
    ensures Tag(weak, length, checksum) == Tag(weak, length', checksum') <==> length == length' && checksum == checksum'
  {
    var t, t' := Tag(weak, length, checksum), Tag(weak, length', checksum');
    var k := if weak then 3 else 1;
    assert t[k..|t| - 1] == Content(length, checksum) && t'[k..|t'| - 1] == Content(length', checksum');
    ReadBack(length, checksum);
    ReadBack(length', checksum');
  }

  /** One number into a buffer with room for the longest. */
  method AppendNumber(buf: array<char>, at: nat, n: uint64) returns (end: nat)
    requires at + 20 <= buf.Length
    modifies buf
    ensures at < end <= at + 20
    ensures buf[..end] == old(buf[..at]) + Numeral(n)
  {
    var len := FastUint2Bytes(buf, at, n);
    end := at + len;
    assert Numeral(n)[..len] == Numeral(n);
  }

  method AppendChar(buf: array<char>, at: nat, c: char) returns (end: nat)
    requires at < buf.Length
    modifies buf
    ensures end == at + 1 && buf[..end] == old(buf[..at]) + [c]
  {
    buf[at] := c;
    end := at + 1;
  }

  /** Fills the fixed buffer of 117 bytes step by step; nothing is ever cut off. */
  method MakeTag(weak: bool, length: uint64, checksum: uint32) returns (etag: string)
    ensures etag == Tag(weak, length, checksum) && |etag| <= 45
    ensures etag == (if weak then "W/" else "") + "\"" + Numeral(length) + "-" + Numeral(checksum) + "\""
  {
    var buf := new char[2 + 1 + 24 + 1 + 24 + 1 + 64];
    var bufOfs := 0;
    if weak {
      bufOfs := AppendChar(buf, bufOfs, 'W');
      bufOfs := AppendChar(buf, bufOfs, '/');
    }
    bufOfs := AppendChar(buf, bufOfs, '"');
    ghost var head := buf[..bufOfs];
    assert head == (if weak then WEAK else "") + QUOTE;
    bufOfs := AppendNumber(buf, bufOfs, length);
    bufOfs := AppendChar(buf, bufOfs, '-');
    bufOfs := AppendNumber(buf, bufOfs, checksum);
    bufOfs := AppendChar(buf, bufOfs, '"');
    etag := buf[..bufOfs];
    Regroup(head, Numeral(length), Numeral(checksum));
    TwentyDigits(length);
    TwentyDigits(checksum);
  }

  lemma Regroup(head: string, a: string, b: string)
    ensures head + a + "-" + b + QUOTE == head + (a + "-" + b) + QUOTE
  {
  }

  // ----- matching

  predicate Contains(s: string, sub: string) {
    exists k :: 0 <= k <= |s| - |sub| && OccursAt(s, sub, k)
  }

  predicate OccursAt(s: string, sub: string, k: nat)
    requires k + |sub| <= |s|
  {
    s[k..k + |sub|] == sub
  }

  /** Whether the value of If-None-Match makes the answer 304. */
  predicate NotModified(client: string, etag: string)
    requires |etag| >= 2
  {
    if client == "" then false
    else if WEAK <= client then client[2..] == etag || client[2..] == etag[2..]
    else Contains(client, etag)
  }

  datatype Answer =
    | NextFailed
    | Unchanged                 // the response goes out as it is
    | Tagged(etag: string)      // the response gets an ETag header
    | NotModified304            // status 304 and no body

  // ----- lists of entity tags

  datatype EntityTag = EntityTag(weak: bool, content: string)

  /** Characters of an opaque tag: anything visible but a quote, and bytes above 127. */
  predicate IsTagChar(c: char) {
    c == '!' || '#' <= c <= '~' || 128 as char <= c
  }

  predicate IsTag(t: EntityTag) {
    forall i :: 0 <= i < |t.content| ==> IsTagChar(t.content[i])
  }

  function Render(t: EntityTag): string {
    (if t.weak then WEAK else "") + QUOTE + t.content + QUOTE
  }

  predicate IsSeparator(s: string) {
    forall i :: 0 <= i < |s| ==> s[i] in {' ', '\t', ','}
  }

  /** A list of tags with the blanks and commas before each of them. */
  datatype Item = Item(separator: string, tag: EntityTag)

  predicate IsList(items: seq<Item>) {
    forall i :: 0 <= i < |items| ==> IsSeparator(items[i].separator) && IsTag(items[i].tag)
  }

  function RenderList(items: seq<Item>, trailer: string): string {
    if items == [] then trailer
    else items[0].separator + Render(items[0].tag) + RenderList(items[1..], trailer)
  }

  predicate WeakMatch(t: EntityTag, u: EntityTag) {
    t.content == u.content
  }

  predicate Listed(items: seq<Item>, weak: bool, content: string) {
    exists i :: 0 <= i < |items| && items[i].tag == EntityTag(weak, content)
  }

  // ----- substring search agrees with reading the list

  /** Text that the code searches for between quotes: it begins with a digit and has no quote. */
  predicate IsNeedle(content: string) {
    content != "" && IsDigit(content[0]) && forall i :: 0 <= i < |content| ==> content[i] != '"'
  }

  lemma ContentIsNeedle(length: nat, checksum: nat)
    ensures IsNeedle(Content(length, checksum))
  {
  }

  /** What comes after a tag in a list is never a digit. */
  lemma RestIsNoDigit(items: seq<Item>, trailer: string)
    requires IsList(items) && IsSeparator(trailer)
    ensures var rest := RenderList(items, trailer); rest != "" ==> !IsDigit(rest[0])
  {
    if items != [] {
      var first := items[0];
      assert RenderList(items, trailer)[0] == (first.separator + Render(first.tag))[0];
    }
  }

  /** `content` between quotes at position `j`. */
  ghost predicate QuotedAt(s: string, content: string, j: nat) {
    && j + |content| + 2 <= |s|
    && s[j] == '"' && s[j + 1 + |content|] == '"'
    && forall i :: 0 <= i < |content| ==> s[j + 1 + i] == content[i]
  }

  lemma OccursQuoted(s: string, content: string, j: nat)
    requires j + |content| + 2 <= |s| && OccursAt(s, QUOTE + content + QUOTE, j)
    ensures QuotedAt(s, content, j)
  {
    var needle := QUOTE + content + QUOTE;
    assert forall i :: 0 <= i < |needle| ==> s[j + i] == s[j..j + |needle|][i] == needle[i];
    forall i | 0 <= i < |content| ensures s[j + 1 + i] == content[i] {
      assert s[j + (1 + i)] == needle[1 + i];
    }
  }

  /** If the first quoted text of `s` is `own`, at `open`, and no digit comes after it, the needle
      can begin no later than its end only by being it. */
  lemma FirstQuoted(s: string, own: string, open: nat, content: string, j: nat)
    requires QuotedAt(s, own, open) && QuotedAt(s, content, j) && IsNeedle(content)
    requires forall i :: 0 <= i < open ==> s[i] != '"'
    requires forall i :: 0 <= i < |own| ==> own[i] != '"'
    requires var close := open + 1 + |own|; close + 1 < |s| ==> !IsDigit(s[close + 1])
    requires j <= open + 1 + |own|
    ensures j == open && own == content
  {
    var close := open + 1 + |own|;
    assert s[j + 1 + 0] == content[0];
    forall i | open < i < close ensures s[i] != '"' {
      assert s[open + 1 + (i - open - 1)] == own[i - open - 1];
    }
    assert j == open;
    forall i | open < i < open + 1 + |content| ensures s[i] != '"' {
      assert s[j + 1 + (i - open - 1)] == content[i - open - 1];
    }
    assert |own| == |content|;
    assert forall i :: 0 <= i < |own| ==> own[i] == s[open + 1 + i] == content[i];
  }

  /** Where the quoted text occurs in one rendered tag and what follows it: only at the opening quote. */
  lemma OccursInFirst(sep: string, t: EntityTag, rest: string, j: nat, content: string)
    requires IsSeparator(sep) && IsTag(t) && IsNeedle(content)
    requires rest != "" ==> !IsDigit(rest[0])
    requires QuotedAt(sep + Render(t) + rest, content, j)
    requires j < |sep + Render(t)|
    ensures t.content == content
    ensures j == |sep| + if t.weak then 2 else 0
  {
    var s := sep + Render(t) + rest;
    var open := |sep| + if t.weak then 2 else 0;
    assert forall i :: 0 <= i < |Render(t)| ==> s[|sep| + i] == Render(t)[i];
    assert forall i :: 0 <= i < |sep| ==> s[i] == sep[i];
    assert QuotedAt(s, t.content, open);
    var close := open + 1 + |t.content|;
    assert close + 1 < |s| ==> s[close + 1] == rest[0];
    FirstQuoted(s, t.content, open, content, j);
  }

  lemma NoQuoteInSeparator(s: string, j: nat)
    requires IsSeparator(s) && j < |s|
    ensures s[j] != '"'
  {
  }

  /** Tag `t` is what was found at `j`; right after a slash it is a weak one. */
  predicate Explains(t: EntityTag, content: string, s: string, j: nat)
    requires j < |s|
  {
    t.content == content && (t.weak || j == 0 || s[j - 1] != '/')
  }

  /** The quoted text occurs in a list only as a whole tag of it, and after a slash only as a
      weak one. */
  lemma {:induction false} OccursInList(items: seq<Item>, trailer: string, j: nat, content: string) returns (i: nat)
    requires IsList(items) && IsSeparator(trailer) && IsNeedle(content)
    requires QuotedAt(RenderList(items, trailer), content, j)
    ensures i < |items| && Explains(items[i].tag, content, RenderList(items, trailer), j)
    decreases |items|, 1
  {
    if items == [] {
      NoQuoteInSeparator(trailer, j);
      assert false;
    } else if j < |items[0].separator + Render(items[0].tag)| {
      i := 0;
      RestIsNoDigit(items[1..], trailer);
      FirstExplains(items[0], RenderList(items[1..], trailer), content, j);
    } else {
      i := OccursLater(items, trailer, j, content);
    }
  }

  lemma OccursLater(items: seq<Item>, trailer: string, j: nat, content: string) returns (i: nat)
    requires items != [] && IsList(items) && IsSeparator(trailer) && IsNeedle(content)
    requires |items[0].separator + Render(items[0].tag)| <= j && QuotedAt(RenderList(items, trailer), content, j)
    ensures i < |items| && Explains(items[i].tag, content, RenderList(items, trailer), j)
    decreases |items|, 0
  {
    var first, tail := items[0], items[1..];
    var m := |first.separator + Render(first.tag)|;
    QuotedLater(first, RenderList(tail, trailer), content, j);
    var k := OccursInList(tail, trailer, j - m, content);
    LaterExplains(first, tail[k].tag, RenderList(tail, trailer), content, j);
    i := k + 1;
  }

  lemma QuotedLater(first: Item, rest: string, content: string, j: nat)
    requires |first.separator + Render(first.tag)| <= j
    requires QuotedAt(first.separator + Render(first.tag) + rest, content, j)
    ensures QuotedAt(rest, content, j - |first.separator + Render(first.tag)|)
  {
    QuotedInRest(first.separator + Render(first.tag), rest, content, j);
  }

  lemma FirstExplains(first: Item, rest: string, content: string, j: nat)
    requires IsSeparator(first.separator) && IsTag(first.tag) && IsNeedle(content) && (rest != "" ==> !IsDigit(rest[0]))
    requires j < |first.separator + Render(first.tag)|
    requires QuotedAt(first.separator + Render(first.tag) + rest, content, j)
    ensures Explains(first.tag, content, first.separator + Render(first.tag) + rest, j)
  {
    OccursInFirst(first.separator, first.tag, rest, j, content);
    OpeningQuote(first.separator, first.tag, rest);
  }

  lemma LaterExplains(first: Item, t: EntityTag, rest: string, content: string, j: nat)
    requires |first.separator + Render(first.tag)| <= j < |first.separator + Render(first.tag) + rest|
    requires Explains(t, content, rest, j - |first.separator + Render(first.tag)|)
    ensures Explains(t, content, first.separator + Render(first.tag) + rest, j)
  {
    ExplainsInRest(t, first.separator + Render(first.tag), rest, content, j);
  }

  lemma QuotedInRest(head: string, rest: string, content: string, j: nat)
    requires |head| <= j && QuotedAt(head + rest, content, j)
    ensures QuotedAt(rest, content, j - |head|)
  {
    var s, m := head + rest, |head|;
    assert forall i :: 0 <= i < |rest| ==> rest[i] == s[m + i];
    forall i | 0 <= i < |content| ensures rest[j - m + 1 + i] == content[i] {
      assert s[j + 1 + i] == content[i];
    }
  }

  lemma ExplainsInRest(t: EntityTag, head: string, rest: string, content: string, j: nat)
    requires head != "" && head[|head| - 1] == '"'
    requires |head| <= j < |head + rest| && Explains(t, content, rest, j - |head|)
    ensures Explains(t, content, head + rest, j)
  {
  }

  lemma OpeningQuote(sep: string, t: EntityTag, rest: string)
    requires IsSeparator(sep)
    ensures sep != "" ==> (sep + Render(t) + rest)[|sep| - 1] != '/'
  {
  }

  /** A rendered tag, and with it the part between its quotes, occurs in every list that has it. */
  lemma {:induction false} ListedOccurs(items: seq<Item>, trailer: string, i: nat) returns (k: nat)
    requires i < |items|
    ensures var s := RenderList(items, trailer);
            k + |Render(items[i].tag)| <= |s| && OccursAt(s, Render(items[i].tag), k)
  {
    var first, rest := items[0], RenderList(items[1..], trailer);
    var m := |first.separator + Render(first.tag)|;
    var s := RenderList(items, trailer);
    if i == 0 {
      k := |first.separator|;
      assert s[k..k + |Render(first.tag)|] == Render(first.tag);
    } else {
      var k' := ListedOccurs(items[1..], trailer, i - 1);
      k := k' + m;
      var r := Render(items[i].tag);
      assert s[k..k + |r|] == rest[k'..k' + |r|];
    }
  }

  lemma StrongFound(items: seq<Item>, trailer: string, i: nat)
    requires i < |items|
    ensures Contains(RenderList(items, trailer), QUOTE + items[i].tag.content + QUOTE)
  {
    var s, r, needle := RenderList(items, trailer), Render(items[i].tag), QUOTE + items[i].tag.content + QUOTE;
    var k := ListedOccurs(items, trailer, i);
    var d := |r| - |needle|;
    assert r[d..] == needle;
    PartOccurs(s, r, k, d);
  }

  /** The end of a text that occurs somewhere occurs there too. */
  lemma PartOccurs(s: string, r: string, k: nat, d: nat)
    requires d <= |r| && k + |r| <= |s| && OccursAt(s, r, k)
    ensures k + d + |r[d..]| <= |s| && OccursAt(s, r[d..], k + d)
  {
    assert s[k + d..k + d + |r[d..]|] == s[k..k + |r|][d..];
  }

  /** Searching for a strong tag finds exactly the lists with a tag of that content, weak or not. */
  lemma StrongSearch(items: seq<Item>, trailer: string, content: string)
    requires IsList(items) && IsSeparator(trailer) && IsNeedle(content)
    ensures Contains(RenderList(items, trailer), QUOTE + content + QUOTE)
            <==> Listed(items, true, content) || Listed(items, false, content)
  {
    var s, needle := RenderList(items, trailer), QUOTE + content + QUOTE;
    if Contains(s, needle) {
      var j :| 0 <= j <= |s| - |needle| && OccursAt(s, needle, j);
      OccursQuoted(s, content, j);
      var i := OccursInList(items, trailer, j, content);
      assert items[i].tag == EntityTag(items[i].tag.weak, content);
    }
    if i :| 0 <= i < |items| && items[i].tag.content == content {
      StrongFound(items, trailer, i);
    }
  }

  lemma WeakOccurs(s: string, content: string, k: nat)
    requires k + |content| + 4 <= |s| && OccursAt(s, WEAK + QUOTE + content + QUOTE, k)
    ensures s[k + 1] == '/' && QuotedAt(s, content, k + 2)
  {
    var needle := WEAK + QUOTE + content + QUOTE;
    assert s[k + 1] == s[k..k + |needle|][1];
    assert s[k + 2..k + |needle|] == s[k..k + |needle|][2..] == QUOTE + content + QUOTE;
    OccursQuoted(s, content, k + 2);
  }

  /** Searching for a weak tag finds exactly the lists with that weak tag. */
  lemma WeakSearch(items: seq<Item>, trailer: string, content: string)
    requires IsList(items) && IsSeparator(trailer) && IsNeedle(content)
    ensures Contains(RenderList(items, trailer), WEAK + QUOTE + content + QUOTE) <==> Listed(items, true, content)
  {
    var s, needle := RenderList(items, trailer), WEAK + QUOTE + content + QUOTE;
    if Contains(s, needle) {
      var k :| 0 <= k <= |s| - |needle| && OccursAt(s, needle, k);
      WeakOccurs(s, content, k);
      var i := OccursInList(items, trailer, k + 2, content);
      assert items[i].tag == EntityTag(true, content);
    }
    if i :| 0 <= i < |items| && items[i].tag == EntityTag(true, content) {
      var k := ListedOccurs(items, trailer, i);
      assert Render(items[i].tag) == needle;
    }
  }

  lemma FirstChar(items: seq<Item>, trailer: string)
    requires RenderList(items, trailer) != ""
    ensures RenderList(items, trailer)[0] ==
            if items == [] then trailer[0]
            else if items[0].separator != "" then items[0].separator[0]
            else Render(items[0].tag)[0]
  {
  }

  /** A list that begins with `W/` begins with a weak tag. */
  lemma WeakFirst(items: seq<Item>, trailer: string)
    requires IsList(items) && IsSeparator(trailer) && WEAK <= RenderList(items, trailer)
    ensures items != [] && items[0].separator == "" && items[0].tag.weak
    ensures var s := RenderList(items, trailer); |s| > 2 && s[2] == '"'
  {
    FirstChar(items, trailer);
    assert RenderList(items, trailer)[0] == 'W';
    assert items != [] && items[0].separator == "" && items[0].tag.weak;
    QuoteAfterWeak(items[0].tag.content, RenderList(items[1..], trailer));
  }

  lemma QuoteAfterWeak(content: string, rest: string)
    ensures var s := "" + Render(EntityTag(true, content)) + rest;
            |s| > 2 && s[2] == '"'
  {
  }

  /** Exactly when a list of entity tags, be it empty, is answered with 304. A list that begins
      with `W/` is compared as a whole; any other is searched for the tag as it would be sent. */
  lemma NotModifiedExactly(weak: bool, length: nat, checksum: nat, items: seq<Item>, trailer: string)
    requires IsList(items) && IsSeparator(trailer)
    ensures var client, content := RenderList(items, trailer), Content(length, checksum);
            NotModified(client, Tag(weak, length, checksum)) <==>
            if WEAK <= client then client == Render(EntityTag(true, content))
            else Listed(items, true, content) || (!weak && Listed(items, false, content))
  {
    if items == [] {
      NothingInSeparator(weak, length, checksum, trailer);
    } else {
      SomeListExactly(weak, length, checksum, items, trailer);
    }
  }

  lemma NothingInSeparator(weak: bool, length: nat, checksum: nat, s: string)
    requires IsSeparator(s)
    ensures !(WEAK <= s) && !NotModified(s, Tag(weak, length, checksum))
  {
    var etag := Tag(weak, length, checksum);
    assert s != "" ==> s[0] != WEAK[0];
    forall k | 0 <= k <= |s| - |etag| ensures !OccursAt(s, etag, k) {
      assert etag[|etag| - 1] == '"';
      assert s[k..k + |etag|][|etag| - 1] == s[k + |etag| - 1];
    }
  }

  lemma SomeListExactly(weak: bool, length: nat, checksum: nat, items: seq<Item>, trailer: string)
    requires items != [] && IsList(items) && IsSeparator(trailer)
    ensures var client, content := RenderList(items, trailer), Content(length, checksum);
            NotModified(client, Tag(weak, length, checksum)) <==>
            if WEAK <= client then client == Render(EntityTag(true, content))
            else Listed(items, true, content) || (!weak && Listed(items, false, content))
  {
    var client, content, etag := RenderList(items, trailer), Content(length, checksum), Tag(weak, length, checksum);
    ContentIsNeedle(length, checksum);
    assert client != "" by {
      assert |client| >= |Render(items[0].tag)|;
    }
    if WEAK <= client {
      WeakFirst(items, trailer);
      assert client == WEAK + client[2..];
      var quoted := QUOTE + content + QUOTE;
      assert Render(EntityTag(true, content)) == WEAK + quoted;
      assert client[2..][0] == '"';
      if weak {
        assert etag == WEAK + quoted && etag[2..] == quoted && etag[0] == 'W';
      } else {
        assert etag == quoted;
        assert etag[2..][0] == etag[2] == (content + QUOTE)[1] != '"' by {
          assert |content| > 1;
        }
      }
    } else if weak {
      assert etag == WEAK + QUOTE + content + QUOTE;
      WeakSearch(items, trailer, content);
    } else {
      assert etag == QUOTE + content + QUOTE;
      StrongSearch(items, trailer, content);
    }
  }

  /** A 304 is sent only if some listed tag weakly matches the generated one. */
  lemma NotModifiedIsSound(weak: bool, length: nat, checksum: nat, items: seq<Item>, trailer: string)
    requires items != [] && IsList(items) && IsSeparator(trailer)
    requires NotModified(RenderList(items, trailer), Tag(weak, length, checksum))
    ensures exists i :: 0 <= i < |items| && WeakMatch(items[i].tag, EntityTag(weak, Content(length, checksum)))
  {
    var client, content := RenderList(items, trailer), Content(length, checksum);
    NotModifiedExactly(weak, length, checksum, items, trailer);
    ContentIsNeedle(length, checksum);
    if WEAK <= client {
      WholeTagQuoted(content);
      var i := OccursInList(items, trailer, 2, content);
    }
  }

  lemma WholeTagQuoted(content: string)
    ensures QuotedAt(Render(EntityTag(true, content)), content, 2)
  {
  }

  /** In strong mode, for a list that does not begin with `W/`, the search agrees with comparing
      tag by tag. */
  lemma StrongModeIsExact(length: nat, checksum: nat, items: seq<Item>, trailer: string)
    requires items != [] && IsList(items) && IsSeparator(trailer) && !(WEAK <= RenderList(items, trailer))
    ensures NotModified(RenderList(items, trailer), Tag(false, length, checksum)) <==>
            exists i :: 0 <= i < |items| && WeakMatch(items[i].tag, EntityTag(false, Content(length, checksum)))
  {
    var content := Content(length, checksum);
    NotModifiedExactly(false, length, checksum, items, trailer);
    if i :| 0 <= i < |items| && WeakMatch(items[i].tag, EntityTag(false, content)) {
      assert items[i].tag == EntityTag(items[i].tag.weak, content);
    }
  }

  /** Some listed tag weakly matches `own`. */
  ghost predicate Matches(items: seq<Item>, own: EntityTag) {
    exists i :: 0 <= i < |items| && WeakMatch(items[i].tag, own)
  }

  predicate BeginsWeak(items: seq<Item>) {
    items != [] && items[0].separator == "" && items[0].tag.weak
  }

  lemma BeginsWeakExactly(items: seq<Item>, trailer: string)
    requires items != [] && IsList(items) && IsSeparator(trailer)
    ensures WEAK <= RenderList(items, trailer) <==> BeginsWeak(items)
  {
    if BeginsWeak(items) {
      var rest := RenderList(items[1..], trailer);
      assert RenderList(items, trailer) == WEAK + (QUOTE + items[0].tag.content + QUOTE + rest);
    }
    if WEAK <= RenderList(items, trailer) {
      WeakFirst(items, trailer);
    }
  }

  predicate NoQuote(s: string) {
    forall i :: 0 <= i < |s| ==> s[i] != '"'
  }

  lemma SameQuoted(a: string, b: string, rest: string)
    requires NoQuote(a) && NoQuote(b)
    requires WEAK + QUOTE + a + QUOTE + rest == WEAK + QUOTE + b + QUOTE
    ensures a == b && rest == ""
  {
    SecondQuote(a, rest);
    SecondQuote(b, "");
    assert WEAK + QUOTE + b + QUOTE + "" == WEAK + QUOTE + b + QUOTE;
  }

  lemma SecondQuote(a: string, rest: string)
    requires NoQuote(a)
    ensures var s := WEAK + QUOTE + a + QUOTE + rest;
            && s[3 + |a|] == '"' && s[3..3 + |a|] == a && s[4 + |a|..] == rest
            && forall j :: 3 <= j < 3 + |a| ==> s[j] != '"'
  {
  }

  lemma NothingRendered(items: seq<Item>, trailer: string)
    ensures RenderList(items, trailer) == "" <==> items == [] && trailer == ""
  {
    if items != [] {
      assert |RenderList(items, trailer)| >= |Render(items[0].tag)|;
    }
  }

  /** A list that begins with a weak tag reads as this one tag only if there is nothing else in it. */
  lemma WholeIsOne(items: seq<Item>, trailer: string, content: string)
    requires IsList(items) && IsSeparator(trailer) && BeginsWeak(items) && NoQuote(content)
    ensures RenderList(items, trailer) == Render(EntityTag(true, content))
            <==> items == [Item("", EntityTag(true, content))] && trailer == ""
  {
    var rest := RenderList(items[1..], trailer);
    var first := items[0].tag.content;
    assert RenderList(items, trailer) == WEAK + QUOTE + first + QUOTE + rest;
    if RenderList(items, trailer) == Render(EntityTag(true, content)) {
      SameQuoted(first, content, rest);
      NothingRendered(items[1..], trailer);
    }
  }

  /** The code answers 304 just when comparing tag by tag would, in both modes, if and only if
      the list has no matching tag, or begins with a weak tag and is that one tag alone, or does
      not begin with a weak tag and, in weak mode, has the weak form of the tag in it. */
  lemma AgreesExactly(weak: bool, length: nat, checksum: nat, items: seq<Item>, trailer: string)
    requires items != [] && IsList(items) && IsSeparator(trailer)
    ensures var own := EntityTag(true, Content(length, checksum));
            (NotModified(RenderList(items, trailer), Tag(weak, length, checksum)) <==> Matches(items, own)) <==>
            (Matches(items, own) ==>
               if BeginsWeak(items) then items == [Item("", own)] && trailer == ""
               else !weak || Listed(items, true, own.content))
  {
    var content := Content(length, checksum);
    ContentIsNeedle(length, checksum);
    NotModifiedExactly(weak, length, checksum, items, trailer);
    BeginsWeakExactly(items, trailer);
    if BeginsWeak(items) {
      WholeIsOne(items, trailer, content);
    }
    ListedMatches(items, content);
  }

  lemma ListedMatches(items: seq<Item>, content: string)
    ensures Matches(items, EntityTag(true, content)) <==> Listed(items, true, content) || Listed(items, false, content)
  {
    if i :| 0 <= i < |items| && WeakMatch(items[i].tag, EntityTag(true, content)) {
      assert items[i].tag == EntityTag(items[i].tag.weak, content);
    }
  }

  /** Two lists that have a matching tag and still get the whole response: the strong form of
      the tag in weak mode, and a second tag after one that begins with `W/`. */
  lemma MissedMatches(length: nat, checksum: nat)
    ensures var own := Content(length, checksum);
            && !NotModified(RenderList([Item("", EntityTag(false, own))], ""), Tag(true, length, checksum))
            && !NotModified(RenderList([Item("", EntityTag(true, "a")), Item(", ", EntityTag(false, own))], ""),
                            Tag(false, length, checksum))
  {
    var own := Content(length, checksum);
    ContentIsTag(length, checksum);
    var one := [Item("", EntityTag(false, own))];
    NotModifiedExactly(true, length, checksum, one, "");
    assert RenderList(one, "")[0] == '"';
    var two := [Item("", EntityTag(true, "a")), Item(", ", EntityTag(false, own))];
    NotModifiedExactly(false, length, checksum, two, "");
    var client := RenderList(two, "");
    assert client[3] == 'a';
    assert Render(EntityTag(true, own))[3] == own[0];
  }

  lemma ContentIsTag(length: nat, checksum: nat)
    ensures IsTag(EntityTag(true, Content(length, checksum))) && IsDigit(Content(length, checksum)[0])
  {
    var a, b := Numeral(length), Numeral(checksum);
    forall i | 0 <= i < |Content(length, checksum)| ensures IsTagChar(Content(length, checksum)[i]) {
      if i < |a| { assert IsDigit(a[i]); } else if i > |a| { assert IsDigit(b[i - |a| - 1]); }
    }
  }

  // ----- the whole decision

  /** Reading the list: if it begins with `W/` it is this one weak tag alone; else the tag is in
      it, in its weak form or, in strong mode, in either. */
  ghost predicate MatchedInList(weak: bool, own: string, items: seq<Item>, trailer: string) {
    if BeginsWeak(items) then items == [Item("", EntityTag(true, own))] && trailer == ""
    else exists i :: 0 <= i < |items| && items[i].tag.content == own && (items[i].tag.weak || !weak)
  }

  lemma MatchedExactly(weak: bool, length: nat, checksum: nat, items: seq<Item>, trailer: string)
    requires IsList(items) && IsSeparator(trailer)
    ensures NotModified(RenderList(items, trailer), Tag(weak, length, checksum)) <==>
            MatchedInList(weak, Content(length, checksum), items, trailer)
  {
    var own := Content(length, checksum);
    NotModifiedExactly(weak, length, checksum, items, trailer);
    ContentIsNeedle(length, checksum);
    if items == [] {
      NothingInSeparator(weak, length, checksum, trailer);
    } else {
      BeginsWeakExactly(items, trailer);
    }
    if BeginsWeak(items) {
      WholeIsOne(items, trailer, own);
    } else {
      ListedByContent(weak, items, own);
    }
  }

  lemma ListedByContent(weak: bool, items: seq<Item>, own: string)
    ensures Listed(items, true, own) || (!weak && Listed(items, false, own)) <==>
            exists i :: 0 <= i < |items| && items[i].tag.content == own && (items[i].tag.weak || !weak)
  {
    if i :| 0 <= i < |items| && items[i].tag.content == own && (items[i].tag.weak || !weak) {
      assert items[i].tag == EntityTag(items[i].tag.weak, own);
    }
  }

  lemma DecidedByList(weak: bool, length: nat, checksum: nat, client: string)
    ensures forall items, trailer ::
              IsList(items) && IsSeparator(trailer) && client == RenderList(items, trailer) ==>
                (NotModified(client, Tag(weak, length, checksum)) <==>
                 MatchedInList(weak, Content(length, checksum), items, trailer))
  {
    forall items, trailer | IsList(items) && IsSeparator(trailer) && client == RenderList(items, trailer)
      ensures NotModified(client, Tag(weak, length, checksum)) <==>
              MatchedInList(weak, Content(length, checksum), items, trailer)
    {
      MatchedExactly(weak, length, checksum, items, trailer);
    }
  }

  /** One request. Without an If-None-Match it is never answered with 304; with one, exactly as the
      two comparisons decide, which for a list of entity tags is what reading the list says. */
  method Handle(weak: bool, nextFailed: bool, status: nat, requestHasETag: bool,
                length: uint64, checksum: uint32, client: string) returns (r: Answer)
    ensures r == NextFailed <==> nextFailed
    ensures r == Unchanged <==> !nextFailed && (status != 200 || requestHasETag || length == 0)
    ensures r == NotModified304 <==>
              !nextFailed && status == 200 && !requestHasETag && length > 0
              && NotModified(client, Tag(weak, length, checksum))
    ensures r.Tagged? ==> r.etag == Tag(weak, length, checksum)
    ensures client == "" ==>
              !r.NotModified304? && (r.Tagged? <==> !nextFailed && status == 200 && !requestHasETag && length > 0)
    ensures !r.NextFailed? && !r.Unchanged? && client != "" ==>
              var tag := Tag(weak, length, checksum);
              r.NotModified304? <==>
              if "W/" <= client then client[2..] == tag || client[2..] == tag[2..]
              else Contains(client, tag)
    ensures forall items, trailer ::
              IsList(items) && IsSeparator(trailer) && client == RenderList(items, trailer)
              && !r.NextFailed? && !r.Unchanged? ==>
                (r.NotModified304? <==> MatchedInList(weak, Content(length, checksum), items, trailer))
  {
    DecidedByList(weak, length, checksum, client);
    if nextFailed {
      return NextFailed;
    }
    if status != 200 || requestHasETag || length == 0 {
      return Unchanged;
    }
    var etag := MakeTag(weak, length, checksum);
    if |client| > 0 {
      if WEAK <= client {
        if client[2..] == etag || client[2..] == etag[2..] {
          return NotModified304;
        }
        return Tagged(etag);
      }
      if Contains(client, etag) {
        return NotModified304;
      }
    }
    return Tagged(etag);
  }
}
