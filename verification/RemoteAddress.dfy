/**
 The first usable address of a comma-separated header (request_internal.go:46-88). The address
 parser is a parameter; bytes are modelled as characters.
 */
module RemoteAddress {
  import opened Wrappers
  import opened Splitting

  function TrimLeft(s: string): string {
    if s != "" && s[0] == ' ' then TrimLeft(s[1..]) else s
  }

  function TrimRight(s: string): string {
    if s != "" && s[|s| - 1] == ' ' then TrimRight(s[..|s| - 1]) else s
  }

  function Trim(s: string): string {
    TrimRight(TrimLeft(s))
  }

  predicate Blank(s: string) {
    forall i :: 0 <= i < |s| ==> s[i] == ' '
  }

  /** The address a field stands for: trimmed of spaces it is not empty, has no space, and parses. */
  function AddressOf<A>(field: string, parse: string -> Option<A>): Option<A> {
    var t := Trim(field);
    if t != "" && Free(t, ' ') then parse(t) else None
  }

  function FirstOf<A>(fields: seq<string>, parse: string -> Option<A>): Option<A> {
    if fields == [] then None
    else if AddressOf(fields[0], parse).Some? then AddressOf(fields[0], parse)
    else FirstOf(fields[1..], parse)
  }

  /** `FirstOf` is the address of the first field that stands for one, or none if there is no such field. */
  lemma {:induction false} FirstOfIsFirst<A>(fields: seq<string>, parse: string -> Option<A>)
    ensures FirstOf(fields, parse) == None <==> forall i :: 0 <= i < |fields| ==> AddressOf(fields[i], parse) == None
    ensures FirstOf(fields, parse) != None ==>
              exists i :: 0 <= i < |fields| && FirstOf(fields, parse) == AddressOf(fields[i], parse)
                          && forall j :: 0 <= j < i ==> AddressOf(fields[j], parse) == None
  {
    if fields == [] {
    } else {
      var rest := fields[1..];
      FirstOfIsFirst(rest, parse);
      assert forall i :: 0 < i < |fields| ==> fields[i] == rest[i - 1];
      if AddressOf(fields[0], parse) == None && FirstOf(rest, parse) != None {
        var i :| 0 <= i < |rest| && FirstOf(rest, parse) == AddressOf(rest[i], parse)
                 && forall j :: 0 <= j < i ==> AddressOf(rest[j], parse) == None;
        assert FirstOf(fields, parse) == AddressOf(fields[i + 1], parse);
      }
    }
  }

  // ----- trimming a field that has been scanned

  lemma {:induction false} TrimLeftDrops(a: string, b: string)
    requires Blank(a) && (b == "" || b[0] != ' ')
    ensures TrimLeft(a + b) == b
  {
    if a == "" {
      assert a + b == b;
    } else {
      assert (a + b)[1..] == a[1..] + b;
      TrimLeftDrops(a[1..], b);
    }
  }

  lemma {:induction false} TrimRightDrops(a: string, b: string)
    requires Blank(b) && (a == "" || a[|a| - 1] != ' ')
    ensures TrimRight(a + b) == a
  {
    if b == "" {
      assert a + b == a;
    } else {
      assert (a + b)[..|a + b| - 1] == a + b[..|b| - 1];
      TrimRightDrops(a, b[..|b| - 1]);
    }
  }

  lemma {:induction false} TrimRightKeeps(s: string, j: nat)
    requires j < |s| && s[j] != ' '
    ensures j < |TrimRight(s)| && TrimRight(s) <= s
  {
    if s[|s| - 1] == ' ' { TrimRightKeeps(s[..|s| - 1], j); }
  }

  /** A field is blanks, a word without spaces, and a tail that begins with a space if there is
      any: it stands for an address only if the tail is blank, and then the word is it. */
  lemma ScannedField<A>(blanks: string, word: string, tail: string, parse: string -> Option<A>)
    requires Blank(blanks) && Free(word, ' ')
    requires tail != "" ==> word != "" && tail[0] == ' '
    ensures AddressOf(blanks + word + tail, parse) == if Blank(tail) && word != "" then parse(word) else None
  {
    var field := blanks + word + tail;
    assert field == blanks + (word + tail);
    TrimLeftDrops(blanks, word + tail);
    if Blank(tail) {
      TrimRightDrops(word, tail);
    } else {
      var i :| 0 <= i < |tail| && tail[i] != ' ';
      assert (word + tail)[|word| + i] == tail[i];
      TrimRightKeeps(word + tail, |word| + i);
      assert Trim(field)[|word|] == (word + tail)[|word|] == ' ';
    }
  }

  /** `field` is a word without spaces between `a` and `b`, and spaces around it. */
  predicate WordAt(field: string, a: int, b: int) {
    && 0 <= a < b <= |field|
    && forall i :: 0 <= i < |field| ==> (field[i] != ' ' <==> a <= i < b)
  }

  /** A field stands for the address its one word parses to, and for none if it is not one word. */
  lemma AddressExactly<A>(field: string, parse: string -> Option<A>)
    ensures forall a, b :: WordAt(field, a, b) ==> AddressOf(field, parse) == parse(field[a..b])
    ensures (forall a, b :: !WordAt(field, a, b)) ==> AddressOf(field, parse) == None
  {
    forall a, b | WordAt(field, a, b) ensures AddressOf(field, parse) == parse(field[a..b]) {
      ThreeSlices(field, 0, a, b, |field|);
      assert field[0..|field|] == field && field[0..a] == field[..a] && field[b..|field|] == field[b..];
      ScannedField(field[..a], field[a..b], field[b..], parse);
    }
    if AddressOf(field, parse) != None {
      TrimLeftCuts(field);
      TrimRightCuts(TrimLeft(field));
      assert WordAt(field, |field| - |TrimLeft(field)|, |field| - |TrimLeft(field)| + |Trim(field)|);
    }
  }

  lemma {:induction false} TrimLeftCuts(s: string)
    ensures |TrimLeft(s)| <= |s| && s[|s| - |TrimLeft(s)|..] == TrimLeft(s)
    ensures forall i :: 0 <= i < |s| - |TrimLeft(s)| ==> s[i] == ' '
  {
    if s != "" && s[0] == ' ' {
      TrimLeftCuts(s[1..]);
      assert forall i :: 0 < i < |s| - |TrimLeft(s)| ==> s[i] == s[1..][i - 1];
    }
  }

  lemma {:induction false} TrimRightCuts(s: string)
    ensures TrimRight(s) <= s
    ensures forall i :: |TrimRight(s)| <= i < |s| ==> s[i] == ' '
  {
    if s != "" && s[|s| - 1] == ' ' {
      TrimRightCuts(s[..|s| - 1]);
    }
  }

  /** The first field of what is left, and what is left after its comma. */
  lemma FirstField(field: string, rest: string)
    requires Free(field, ',') && (rest == "" || rest[0] == ',')
    ensures Split(field + rest, ',') == [field] + if rest == "" then [] else Split(rest[1..], ',')
  {
    SplitFree(field, ',');
    if rest == "" {
      assert field + rest == field;
    } else {
      SplitAt(field, ',', rest[1..]);
      assert rest == [','] + rest[1..];
      assert field + rest == field + [','] + rest[1..];
    }
  }

  /** A field from `from` to `ofs`, with a word from `startOfs` to `endOfs` after its leading spaces. */
  predicate FieldScan(header: string, from: nat, startOfs: nat, endOfs: nat, ofs: nat, moreFound: bool) {
    && from <= startOfs <= endOfs <= ofs <= |header|
    && (forall i :: from <= i < startOfs ==> header[i] == ' ')
    && (forall i :: startOfs <= i < endOfs ==> header[i] != ' ' && header[i] != ',')
    && (forall i :: endOfs <= i < ofs ==> header[i] != ',')
    && (endOfs < ofs ==> startOfs < endOfs && header[endOfs] == ' ')
    && (moreFound <==> exists i :: endOfs <= i < ofs && header[i] != ' ')
    && (ofs < |header| ==> header[ofs] == ',')
  }

  /** The three inner loops: over leading spaces, over the word, and on to the next comma. */
  method ScanField(header: string, from: nat) returns (startOfs: nat, endOfs: nat, ofs: nat, nonSpaceCharFound: bool)
    requires from < |header|
    ensures FieldScan(header, from, startOfs, endOfs, ofs, nonSpaceCharFound)
  {
    ofs := from;
    var l := |header|;
    while ofs < l && header[ofs] == ' '
      invariant from <= ofs <= l && forall i :: from <= i < ofs ==> header[i] == ' '
    {
      ofs := ofs + 1;
    }
    startOfs := ofs;
    while ofs < l && header[ofs] != ' ' && header[ofs] != ','
      invariant startOfs <= ofs <= l
      invariant forall i :: startOfs <= i < ofs ==> header[i] != ' ' && header[i] != ','
    {
      ofs := ofs + 1;
    }
    endOfs := ofs;
    nonSpaceCharFound := false;
    while ofs < l && header[ofs] != ','
      invariant endOfs <= ofs <= l
      invariant nonSpaceCharFound <==> exists i :: endOfs <= i < ofs && header[i] != ' '
      invariant forall i :: endOfs <= i < ofs ==> header[i] != ','
    {
      if header[ofs] != ' ' {
        nonSpaceCharFound := true;
      }
      ofs := ofs + 1;
    }
  }

  /** What the fields from `from` on give. */
  function FirstFrom<A>(header: string, from: nat, parse: string -> Option<A>): Option<A>
    requires from <= |header|
  {
    FirstOf(Split(header[from..], ','), parse)
  }

  /** What a scan says about the fields from there on. */
  lemma Scanned<A>(header: string, from: nat, startOfs: nat, endOfs: nat, ofs: nat, moreFound: bool,
                   parse: string -> Option<A>)
    requires FieldScan(header, from, startOfs, endOfs, ofs, moreFound)
    ensures from <= startOfs <= endOfs <= ofs <= |header|
    ensures var addr := if startOfs < endOfs && !moreFound then parse(header[startOfs..endOfs]) else None;
            FirstFrom(header, from, parse) ==
            if addr.Some? then addr else if ofs < |header| then FirstFrom(header, ofs + 1, parse) else None
  {
    var blanks, word := header[from..startOfs], header[startOfs..endOfs];
    var tail, rest := header[endOfs..ofs], header[ofs..];
    NoCommaInField(header, from, startOfs, endOfs, ofs);
    SameTail(header, endOfs, ofs);
    ThreeSlices(header, from, startOfs, endOfs, ofs);
    assert header[from..] == header[from..ofs] + rest;
    FirstField(blanks + word + tail, rest);
    ScannedField(blanks, word, tail, parse);
    assert ofs < |header| ==> rest[1..] == header[ofs + 1..];
    assert FirstOf([], parse) == None;
    var field := blanks + word + tail;
    assert FirstFrom(header, from, parse) ==
           if AddressOf(field, parse).Some? then AddressOf(field, parse)
           else FirstOf(if rest == "" then [] else Split(rest[1..], ','), parse);
  }

  lemma NoCommaInField(header: string, from: nat, startOfs: nat, endOfs: nat, ofs: nat)
    requires from <= startOfs <= endOfs <= ofs <= |header|
    requires Blank(header[from..startOfs])
    requires forall i :: startOfs <= i < ofs ==> header[i] != ','
    ensures Free(header[from..startOfs] + header[startOfs..endOfs] + header[endOfs..ofs], ',')
  {
    var blanks := header[from..startOfs];
    assert forall i :: 0 <= i < |blanks| ==> blanks[i] == ' ';
    assert forall i :: from <= i < startOfs ==> header[i] == blanks[i - from];
    ThreeSlices(header, from, startOfs, endOfs, ofs);
  }

  lemma ThreeSlices(s: string, a: nat, b: nat, c: nat, d: nat)
    requires a <= b <= c <= d <= |s|
    ensures s[a..b] + s[b..c] + s[c..d] == s[a..d]
  {
    assert s[a..b] + s[b..c] == s[a..c];
  }

  lemma SameTail(header: string, endOfs: nat, ofs: nat)
    requires endOfs <= ofs <= |header|
    ensures Blank(header[endOfs..ofs]) <==> !(exists i :: endOfs <= i < ofs && header[i] != ' ')
  {
    var tail := header[endOfs..ofs];
    assert forall i :: endOfs <= i < ofs ==> header[i] == tail[i - endOfs];
  }

  method GetFirstIpAddress<A>(header: string, parse: string -> Option<A>) returns (r: Option<A>)
    ensures r == FirstOf(Split(header, ','), parse)
  {
    var ofs := 0;
    var l := |header|;
    assert header[0..] == header;
    while ofs < l
      invariant 0 <= ofs <= l
      invariant FirstFrom(header, 0, parse) == FirstFrom(header, ofs, parse)
    {
      ghost var from := ofs;
      var startOfs, endOfs, nonSpaceCharFound;
      startOfs, endOfs, ofs, nonSpaceCharFound := ScanField(header, ofs);
      Scanned(header, from, startOfs, endOfs, ofs, nonSpaceCharFound, parse);
      NoneAtEnd(header, parse);
      assert from < ofs || ofs < l;
      if ofs < l {
        ofs := ofs + 1;
      }
      if !nonSpaceCharFound && endOfs > startOfs {
        var addr := parse(header[startOfs..endOfs]);
        if addr.Some? {
          return addr;
        }
      }
    }
    NoneAtEnd(header, parse);
    return None;
  }

  lemma NoneAtEnd<A>(header: string, parse: string -> Option<A>)
    ensures FirstFrom(header, |header|, parse) == None
  {
    assert header[|header|..] == "";
    assert AddressOf("", parse) == None;
    assert Split("", ',') == [""] && [""][1..] == [];
  }
}
