/** What the parser of Server/ServerHTTP.cpp accepts, and where its marks are, for any text at all. */
module HttpMarks {
  import opened Basics
  import opened HttpData

  // ---- Searching and trimming, said without a search ---------------------------------------------------------

  /** "t" is the text at "pos". */
  predicate Stands(s: string, pos: nat, t: string) { pos + |t| <= |s| && s[pos..pos + |t|] == t }

  /** "t" stands at "pos", and nowhere from "from" to there. */
  ghost predicate FirstAt(s: string, t: string, from: nat, pos: nat) {
    from <= pos && Stands(s, pos, t) && forall k: nat | from <= k < pos :: !Stands(s, k, t)
  }

  /** "t" stands at "pos", and nowhere from there to "upTo". */
  ghost predicate LastAt(s: string, t: string, upTo: nat, pos: nat) {
    pos <= upTo && Stands(s, pos, t) && forall k: nat | pos < k <= upTo :: !Stands(s, k, t)
  }

  predicate Blank(c: char) { c in {'\r', '\n', '\t', '\0', ' '} }

  predicate AllBlank(s: string, i: nat, j: nat) { forall k | i <= k < j && k < |s| :: Blank(s[k]) }

  /** "end" is the last character up to "i" that is not blank, or the first of all. */
  predicate EndsAt(s: string, i: nat, end: nat) {
    end <= i < |s| && AllBlank(s, end + 1, i + 1) && (end > 0 ==> !Blank(s[end]))
  }

  /** "begin" is the first character from "i" on that is not blank, or the end of the text. */
  predicate BeginsAt(s: string, i: nat, begin: nat) {
    i <= begin <= |s| && AllBlank(s, i, begin) && (begin < |s| ==> !Blank(s[begin]))
  }

  lemma {:induction false} AtStands(s: string, i: nat, t: string)
    ensures At(s, i, t) <==> Stands(s, i, t)
  {
    AtIsSlice(s, i, t);
  }

  lemma {:induction false} FindMeans(s: string, t: string, from: nat)
    ensures forall pos: nat :: Find(s, t, from) == Some(pos) <==> FirstAt(s, t, from, pos)
    decreases |s| + 1 - from
  {
    if from <= |s| {
      AtStands(s, from, t);
      FindMeans(s, t, from + 1);
    }
  }

  lemma {:induction false} FindLastMeans(s: string, t: string, from: nat)
    ensures forall pos: nat :: FindLast(s, t, from) == Some(pos) <==> LastAt(s, t, from, pos)
  {
    AtStands(s, from, t);
    if from > 0 { FindLastMeans(s, t, from - 1); }
  }

  lemma {:induction false} TrimLeftMeans(s: string, i: nat, begin: nat)
    requires i <= |s|
    ensures TrimLeft(s, i) == begin <==> BeginsAt(s, i, begin)
    decreases |s| - i
  {
    if i < |s| { TrimLeftMeans(s, i + 1, begin); }
  }

  lemma {:induction false} TrimRightMeans(s: string, i: nat, end: nat)
    requires i < |s|
    ensures TrimRight(s, i) == end <==> EndsAt(s, i, end)
  {
    if i > 0 { TrimRightMeans(s, i - 1, end); }
  }

  // ---- The marks -------------------------------------------------------------------------------------------------

  /** The request line: the method up to the first space, the URI behind the blanks there, and "HTTP" where it stands
      last before the end of the line. */
  ghost predicate IsRequestLine(s: string, o: Offsets) {
    && FirstAt(s, " ", o.requestBegin, o.methodEnd + 1) && o.methodEnd + 1 < o.headerBegin
    && o.uriBegin < |s| && BeginsAt(s, o.methodEnd + 1, o.uriBegin)
    && exists version: nat ::
         LastAt(s, "HTTP", o.requestEnd, version) && version > 1 && o.uriBegin <= o.uriEnd && EndsAt(s, version - 1, o.uriEnd)
  }

  /** The sections: the first line ends at the first line break, the headers at the first empty line. */
  ghost predicate AreSections(s: string, o: Offsets) {
    && o.requestBegin < |s| && BeginsAt(s, 0, o.requestBegin)
    && o.headerBegin >= 2 && FirstAt(s, "\r\n", o.requestBegin, o.headerBegin - 2)
    && o.headerEnd >= 2 && FirstAt(s, "\r\n\r\n", o.requestBegin, o.headerEnd - 2)
    && EndsAt(s, o.headerBegin - 2, o.requestEnd) && o.bodyBegin == o.headerEnd + 2 && o.bodyEnd == |s|
  }

  /** The marks that parse() takes from the sections. */
  predicate FromSections(s: string, o: Offsets) {
    && Sections(s) == Some((o.requestBegin, o.headerBegin - 2, o.headerEnd - 2))
    && o.requestEnd == TrimRight(s, o.headerBegin - 2) && o.bodyBegin == o.headerEnd + 2 && o.bodyEnd == |s|
  }

  lemma {:induction false} SectionsMean(s: string, o: Offsets)
    ensures FromSections(s, o) <==> AreSections(s, o)
  {
    TrimLeftMeans(s, 0, o.requestBegin);
    FindMeans(s, CRLF, o.requestBegin);
    FindMeans(s, CRLF2, o.requestBegin);
    if 2 <= o.headerBegin < |s| + 2 { TrimRightMeans(s, o.headerBegin - 2, o.requestEnd); }
  }

  lemma {:induction false} UriMeans(s: string, space: nat, requestEnd: nat, uriBegin: nat, uriEnd: nat)
    requires space < |s|
    ensures UriBounds(s, space, requestEnd) == Some((uriBegin, uriEnd))
            <==> && uriBegin < |s| && BeginsAt(s, space, uriBegin)
                 && exists version: nat ::
                      LastAt(s, "HTTP", requestEnd, version) && version > 1 && uriBegin <= uriEnd && EndsAt(s, version - 1, uriEnd)
  {
    TrimLeftMeans(s, space, uriBegin);
    FindLastMeans(s, "HTTP", requestEnd);
    var version := FindLast(s, "HTTP", requestEnd);
    if version.Some? && version.value > 1 {
      assert LastAt(s, "HTTP", requestEnd, version.value);
      TrimRightMeans(s, version.value - 1, uriEnd);
    }
  }

  lemma {:induction false} RequestLineMeans(s: string, o: Offsets)
    requires o.requestBegin < |s| && !IsTrim(s[o.requestBegin])
    ensures RequestLine(s, o.requestBegin, o.requestEnd, o.headerBegin) == Some((o.methodEnd, o.uriBegin, o.uriEnd))
            <==> IsRequestLine(s, o)
  {
    FindMeans(s, " ", o.requestBegin);
    var space := Find(s, " ", o.requestBegin);
    if space.Some? {
      assert FirstAt(s, " ", o.requestBegin, space.value);
      assert s[space.value..space.value + 1] == " " && s[space.value] == ' ';
      UriMeans(s, space.value, o.requestEnd, o.uriBegin, o.uriEnd);
    }
  }

  lemma {:induction false} ParseIsParts(s: string, o: Offsets)
    ensures Parse(s) == Some(o) <==>
            && FromSections(s, o) && o.requestBegin < |s| && !IsTrim(s[o.requestBegin])
            && RequestLine(s, o.requestBegin, o.requestEnd, o.headerBegin) == Some((o.methodEnd, o.uriBegin, o.uriEnd))
  {
    if Sections(s).Some? { SectionsInOrder(s); }
  }

  /** For any text: parse() succeeds with these marks exactly when they are where a request has its parts. */
  lemma {:induction false} ParseMeans(s: string, o: Offsets)
    ensures Parse(s) == Some(o) <==> AreSections(s, o) && IsRequestLine(s, o)
  {
    ParseIsParts(s, o);
    SectionsMean(s, o);
    if o.requestBegin < |s| && !IsTrim(s[o.requestBegin]) { RequestLineMeans(s, o); }
  }

  // ---- Headers ------------------------------------------------------------------------------------------------------

  /** The line at "index" as name and value around the first colon, or as a name alone. */
  ghost predicate IsHeaderSpan(s: string, index: nat, h: HeaderSpan)
    requires index <= |s|
  {
    && BeginsAt(s, index, h.nameBegin) && h.nameBegin < h.valueEnd
    && (exists line: nat :: FirstAt(s, "\r\n", h.nameBegin, line) && EndsAt(s, line, h.valueEnd - 1))
    && if exists colon: nat :: FirstAt(s, ":", h.nameBegin, colon) && colon <= h.valueEnd then
         exists colon: nat :: FirstAt(s, ":", h.nameBegin, colon) && IsAround(s, h, colon)
       else h.nameEnd == h.valueBegin == h.valueEnd
  }

  predicate IsAround(s: string, h: HeaderSpan, colon: nat) {
    && 0 < colon < |s| && 0 < h.nameEnd && EndsAt(s, colon - 1, h.nameEnd - 1) && BeginsAt(s, colon + 1, h.valueBegin)
    && h.nameBegin < h.nameEnd < h.valueBegin < h.valueEnd
  }

  lemma {:induction false} AroundMeans(s: string, h: HeaderSpan, colon: nat)
    requires colon < |s|
    ensures AroundColon(s, h.nameBegin, colon, h.valueEnd) == Some(h) <==> IsAround(s, h, colon)
  {
    if colon > 0 {
      TrimRightMeans(s, colon - 1, TrimRight(s, colon - 1));
      if h.nameEnd > 0 { TrimRightMeans(s, colon - 1, h.nameEnd - 1); }
      TrimLeftMeans(s, colon + 1, h.valueBegin);
    }
  }

  /** For any line: the constructor of Header succeeds with these spans exactly when they are the trimmed texts on
      both sides of its first colon, or of the whole line if it has none. */
  lemma {:induction false} HeaderMeans(s: string, index: nat, h: HeaderSpan)
    requires index <= |s|
    ensures HeaderAt(s, index) == Some(h) <==> IsHeaderSpan(s, index, h)
  {
    TrimLeftMeans(s, index, h.nameBegin);
    FindMeans(s, CRLF, h.nameBegin);
    FindMeans(s, ":", h.nameBegin);
    var line, colon := Find(s, CRLF, h.nameBegin), Find(s, ":", h.nameBegin);
    if line.Some? {
      assert FirstAt(s, "\r\n", h.nameBegin, line.value);
      TrimRightMeans(s, line.value, TrimRight(s, line.value));
      if h.valueEnd > 0 { TrimRightMeans(s, line.value, h.valueEnd - 1); }
      if colon.Some? {
        assert FirstAt(s, ":", h.nameBegin, colon.value);
        AroundMeans(s, h, colon.value);
      }
    }
  }
}
