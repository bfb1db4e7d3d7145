/**
 * The text-extraction endpoint: it classifies an uploaded file, pulls text
 * out of it (OCR for images, the raw text of TXT files, string scraping of
 * PDF and DOCX bodies), cleans it and answers with JSON.
 *
 * File bodies are given already decoded from UTF-8; the OCR call is an
 * input (`Ocr`), as is the outcome of reading the multipart form.
 */
module ExtractText {
  import opened Base
  import opened JsText

  datatype File = File(name: string, mime: string, size: nat, body: string)

  /** The request: the CORS preflight, a form that could not be read, or an upload with or without a `file` field. */
  datatype Request = Preflight | BadForm(message: string) | Upload(file: Option<File>)

  /** What the OCR service gave back for an image: its text, or the error thrown. */
  datatype Ocr = Recognized(text: string) | OcrError(message: string)

  datatype Body = Extracted(text: string, fileName: string, fileSize: nat) | Failure(error: string)

  datatype Response = CorsOk | Json(status: nat, body: Body)

  const NoFileMessage := "No file provided"
  const PdfMessage := "Could not extract text from PDF. Please copy and paste the text manually, or try a different file format."
  const DocxMessage := "Could not extract text from DOCX. Please copy and paste the text manually."
  const UnsupportedMessage := "Unsupported file type. Please upload TXT, PDF, DOCX, or image files (JPG, PNG, etc.)."
  const EmptyMessage := "File appears to be empty or could not extract meaningful text."

  const DocxMime := "application/vnd.openxmlformats-officedocument.wordprocessingml.document"

  // ---------------------------------------------------------------------------
  // File classification

  const ImageTypes: seq<string> := ["image/jpeg", "image/png", "image/gif", "image/webp", "image/heic", "image/heif"]
  const ImageExtensions: seq<string> := ["jpg", "jpeg", "png", "gif", "webp", "heic", "heif"]

  /** ASCII lower case; the case-insensitive flag of a non-Unicode regex folds nothing else onto ASCII. */
  function AsciiLower(c: char): char {
    if 'A' <= c <= 'Z' then (c as int + 32) as char else c
  }

  function Lower(s: string): (r: string)
    ensures |r| == |s| && forall i :: 0 <= i < |s| ==> r[i] == AsciiLower(s[i])
  {
    seq(|s|, i requires 0 <= i < |s| => AsciiLower(s[i]))
  }

  /** `/\.(jpg|jpeg|png|gif|webp|heic|heif)$/i.test(name)`. */
  predicate HasImageExtension(name: string) {
    exists e :: e in ImageExtensions && EndsWith(Lower(name), "." + e)
  }

  predicate IsImageFile(f: File) {
    f.mime in ImageTypes || HasImageExtension(f.name)
  }

  predicate IsTxt(f: File) {
    f.mime == "text/plain" || EndsWith(f.name, ".txt")
  }

  predicate IsPdf(f: File) {
    f.mime == "application/pdf" || EndsWith(f.name, ".pdf")
  }

  predicate IsDocx(f: File) {
    f.mime == DocxMime || EndsWith(f.name, ".docx")
  }

  /**
   * Whatever comes before it, the image extension test ignores ASCII case,
   * only the last extension counts, and `.txt`, `.pdf` and `.docx` are
   * matched as written.
   */
  lemma ExtensionCase(n: string)
    ensures HasImageExtension(n + ".JPG") && HasImageExtension(n + ".HeIc")
    ensures !HasImageExtension(n + ".jpg.txt")
    ensures IsTxt(File(n + ".txt", "", 0, "")) && !IsTxt(File(n + ".TXT", "", 0, ""))
    ensures IsPdf(File(n + ".pdf", "", 0, "")) && !IsPdf(File(n + ".PDF", "", 0, ""))
    ensures IsDocx(File(n + ".docx", "", 0, "")) && !IsDocx(File(n + ".DOCX", "", 0, ""))
  {
    UpperCaseExtension(n);
    MixedCaseExtension(n);
    LastExtensionDecides(n);
    SuffixMatchesAsWritten(n, ".txt", ".TXT");
    SuffixMatchesAsWritten(n, ".pdf", ".PDF");
    SuffixMatchesAsWritten(n, ".docx", ".DOCX");
  }

  lemma UpperCaseExtension(n: string)
    ensures HasImageExtension(n + ".JPG")
  {
    var w := n + ".JPG";
    var l := Lower(w);
    forall k | 0 <= k < 4 ensures l[|n| + k] == ("." + ImageExtensions[0])[k] {
      assert w[|n| + k] == ".JPG"[k];
    }
    assert l[|n|..] == "." + ImageExtensions[0];
  }

  lemma MixedCaseExtension(n: string)
    ensures HasImageExtension(n + ".HeIc")
  {
    var w := n + ".HeIc";
    var l := Lower(w);
    forall k | 0 <= k < 5 ensures l[|n| + k] == ("." + ImageExtensions[5])[k] {
      assert w[|n| + k] == ".HeIc"[k];
    }
    assert l[|n|..] == "." + ImageExtensions[5];
  }

  lemma LastExtensionDecides(n: string)
    ensures !HasImageExtension(n + ".jpg.txt")
  {
    var w := n + ".jpg.txt";
    var l := Lower(w);
    assert w[|w| - 1] == 't';
    assert l[|l| - 1] == 't';
    forall e | e in ImageExtensions ensures !EndsWith(l, "." + e) {
      assert e[|e| - 1] != 't';
      assert ("." + e)[|e|] == e[|e| - 1];
    }
  }

  /** A suffix test fails once the last letter differs, as an upper-case letter does from a lower-case one. */
  lemma SuffixMatchesAsWritten(n: string, suffix: string, other: string)
    requires |other| == |suffix| > 0 && other[|other| - 1] != suffix[|suffix| - 1]
    ensures EndsWith(n + suffix, suffix)
    ensures !EndsWith(n + other, suffix)
  {
    assert (n + suffix)[|n|..] == suffix;
    assert (n + other)[|n| + |other| - 1] == other[|other| - 1];
  }

  /** An extension match does not depend on the case of the name's letters. */
  lemma ImageExtensionIgnoresCase(name: string)
    ensures HasImageExtension(Lower(name)) <==> HasImageExtension(name)
  {
    assert Lower(Lower(name)) == Lower(name);
  }

  // ---------------------------------------------------------------------------
  // Scanning

  /** The first index at or after `i` holding `c`. */
  function IndexFrom(s: string, c: char, i: nat): (r: Option<nat>)
    ensures r.Some? ==> i <= r.value < |s| && s[r.value] == c && forall k :: i <= k < r.value ==> s[k] != c
    ensures r.None? ==> forall k :: i <= k < |s| ==> s[k] != c
    decreases |s| - i
  {
    if i >= |s| then None
    else if s[i] == c then Some(i)
    else IndexFrom(s, c, i + 1)
  }

  lemma NoCharInSlice(s: string, a: nat, b: nat, c: char)
    requires a <= b <= |s|
    requires forall k :: a <= k < b ==> s[k] != c
    ensures c !in s[a..b]
  {
    forall k | 0 <= k < b - a ensures s[a..b][k] != c {
      assert s[a..b][k] == s[a + k];
    }
  }

  predicate AsciiAlnum(c: char) {
    ('a' <= c <= 'z') || ('A' <= c <= 'Z') || ('0' <= c <= '9')
  }

  // ---------------------------------------------------------------------------
  // PDF

  /**
   * A match of `/\(([^)]+)\)/` starting at `a` and closing at `b`: `(`, then
   * at least one character up to the first `)` after it.
   */
  predicate ParenMatch(s: string, a: nat, b: nat) {
    a + 2 <= b < |s| && s[a] == '(' && s[b] == ')' && forall k :: a < k < b ==> s[k] != ')'
  }

  /** Where the match starting at `a` closes, if one starts there; there is at most one. */
  function ParenAt(s: string, a: nat): (r: Option<nat>)
    ensures r.Some? ==> ParenMatch(s, a, r.value)
    ensures forall b: nat :: ParenMatch(s, a, b) ==> r == Some(b)
  {
    if a < |s| && s[a] == '(' then
      match IndexFrom(s, ')', a + 1)
      case Some(j) => if j >= a + 2 then Some(j) else None
      case None => None
    else None
  }

  /**
   * The inner texts of the matches of `/\(([^)]+)\)/g` from `i` on. Where
   * no match starts the search moves one character on; after a match it
   * resumes behind the closing parenthesis.
   */
  function ParenStrings(s: string, i: nat): (r: seq<string>)
    ensures forall k :: 0 <= k < |r| ==> |r[k]| >= 1 && ')' !in r[k]
    decreases |s| - i
  {
    if i >= |s| then []
    else
      match ParenAt(s, i)
      case Some(b) =>
        NoCharInSlice(s, i + 1, b, ')');
        [s[i + 1..b]] + ParenStrings(s, b + 1)
      case None => ParenStrings(s, i + 1)
  }

  /** Every text found is the inside of a match at or after `i`. */
  lemma {:induction false} ParenStringsSound(s: string, i: nat)
    ensures forall t :: t in ParenStrings(s, i) ==> exists a: nat, b: nat :: i <= a && ParenMatch(s, a, b) && t == s[a + 1..b]
    decreases |s| - i
  {
    if i < |s| {
      match ParenAt(s, i)
      case Some(b) =>
        ParenStringsSound(s, b + 1);
        forall t | t in ParenStrings(s, i)
          ensures exists a: nat, b': nat :: i <= a && ParenMatch(s, a, b') && t == s[a + 1..b']
        {
          if t != s[i + 1..b] {
            assert t in ParenStrings(s, b + 1);
          }
        }
      case None =>
        ParenStringsSound(s, i + 1);
    }
  }

  /**
   * A match at `a` is found when no match starting between `i` and `a`
   * runs over `a`; in particular the first match at or after `i` is.
   */
  lemma {:induction false} ParenStringsComplete(s: string, i: nat, a: nat, b: nat)
    requires i <= a && ParenMatch(s, a, b)
    requires forall a': nat, b': nat :: i <= a' < a && ParenMatch(s, a', b') ==> b' < a
    ensures s[a + 1..b] in ParenStrings(s, i)
    decreases a - i
  {
    if i == a {
      assert ParenAt(s, i) == Some(b);
    } else {
      match ParenAt(s, i)
      case Some(j) =>
        ParenStringsComplete(s, j + 1, a, b);
      case None =>
        ParenStringsComplete(s, i + 1, a, b);
    }
  }

  /**
   * The scan goes straight to the first match at or after `i`, takes its
   * text and resumes behind it; this fixes the order of the texts and
   * leaves out the matches it jumps over.
   */
  lemma {:induction false} ParenStringsFirst(s: string, i: nat, a: nat, b: nat)
    requires i <= a && ParenMatch(s, a, b)
    requires forall a': nat, b': nat :: i <= a' < a ==> !ParenMatch(s, a', b')
    ensures ParenStrings(s, i) == [s[a + 1..b]] + ParenStrings(s, b + 1)
    decreases a - i
  {
    if i == a {
      assert ParenAt(s, i) == Some(b);
    } else {
      assert ParenAt(s, i) == None;
      ParenStringsFirst(s, i + 1, a, b);
    }
  }

  /** With no match at or after `i`, nothing is found. */
  lemma {:induction false} ParenStringsNone(s: string, i: nat)
    requires forall a: nat, b: nat :: i <= a ==> !ParenMatch(s, a, b)
    ensures ParenStrings(s, i) == []
    decreases |s| - i
  {
    if i < |s| {
      assert ParenAt(s, i) == None;
      ParenStringsNone(s, i + 1);
    }
  }

  /** The filter of the first pass: longer than one code unit, with an ASCII letter or digit. */
  predicate KeepPdfString(t: string) {
    Utf16Length(t) > 1 && exists k :: 0 <= k < |t| && AsciiAlnum(t[k])
  }

  function KeptPdfStrings(ts: seq<string>): (r: seq<string>)
    ensures forall k :: 0 <= k < |r| ==> KeepPdfString(r[k]) && r[k] in ts
    ensures forall t :: t in ts && KeepPdfString(t) ==> t in r
    ensures |r| <= |ts|
  {
    if ts == [] then []
    else (if KeepPdfString(ts[0]) then [ts[0]] else []) + KeptPdfStrings(ts[1..])
  }

  /** The filter works text by text and keeps the order: that of `a + b` is that of `a` followed by that of `b`. */
  lemma {:induction false} KeptPdfStringsAppend(a: seq<string>, b: seq<string>)
    ensures KeptPdfStrings(a + b) == KeptPdfStrings(a) + KeptPdfStrings(b)
  {
    if a == [] {
      assert a + b == b;
    } else {
      assert (a + b)[0] == a[0] && (a + b)[1..] == a[1..] + b;
      KeptPdfStringsAppend(a[1..], b);
    }
  }

  /** One text is kept exactly when it passes the filter. */
  lemma KeptPdfStringsOne(t: string)
    ensures KeptPdfStrings([t]) == (if KeepPdfString(t) then [t] else [])
  {
  }

  /** The class `[A-Za-z0-9\s.,!?;:'"()-]`. */
  predicate Readable(c: char) {
    AsciiAlnum(c) || IsSpace(c) || c in ".,!?;:'\"()-"
  }

  /** The end of the run of readable characters starting at `i`. */
  function RunEnd(s: string, i: nat): (e: nat)
    requires i <= |s|
    ensures i <= e <= |s|
    ensures forall k :: i <= k < e ==> Readable(s[k])
    ensures e == |s| || !Readable(s[e])
    decreases |s| - i
  {
    if i < |s| && Readable(s[i]) then RunEnd(s, i + 1) else i
  }

  /**
   * The matches of `/[A-Za-z0-9\s.,!?;:'"()-]{10,}/g` from `i` on: the maximal
   * runs of readable characters at least 10 long. A shorter run matches at
   * none of its positions, so scanning skips past it.
   */
  function ReadableRuns(s: string, i: nat): (r: seq<string>)
    requires i <= |s|
    ensures forall k :: 0 <= k < |r| ==> |r[k]| >= 10
    ensures forall k, j :: 0 <= k < |r| && 0 <= j < |r[k]| ==> Readable(r[k][j])
    decreases |s| - i
  {
    if i == |s| then []
    else if Readable(s[i]) then
      var e := RunEnd(s, i);
      if e - i >= 10 then
        [s[i..e]] + ReadableRuns(s, e)
      else ReadableRuns(s, e)
    else ReadableRuns(s, i + 1)
  }

  /** The text scraped from a PDF body, before the length check and the cleanup. */
  function PdfText(content: string): string {
    var first := if ParenStrings(content, 0) != [] then Join(KeptPdfStrings(ParenStrings(content, 0)), " ") else "";
    Trim(PdfJoined(first, ReadableRuns(content, 0)))
  }

  /** The text of the first pass, then a space and the runs of the second when there are any. */
  function PdfJoined(first: string, runs: seq<string>): string {
    if runs != [] then first + " " + Join(runs, " ") else first
  }

  /** Each part of a join stands somewhere in it. */
  lemma {:induction false} JoinHolds(parts: seq<string>, sep: string, k: nat)
    requires k < |parts|
    ensures exists p: nat :: StartsAt(Join(parts, sep), p, parts[k])
    decreases |parts|
  {
    if |parts| == 1 {
      assert StartsAt(Join(parts, sep), 0, parts[k]);
    } else {
      var init := parts[..|parts| - 1];
      var a := Join(init, sep);
      if k == |parts| - 1 {
        assert StartsAt(parts[k], 0, parts[k]);
        StartsAtLeft(a + sep, parts[k], 0, parts[k]);
        assert Join(parts, sep) == a + sep + parts[k];
        assert StartsAt(Join(parts, sep), |a + sep|, parts[k]);
      } else {
        JoinHolds(init, sep, k);
        var p: nat :| StartsAt(a, p, init[k]);
        StartsAtRight(a, sep + parts[|parts| - 1], p, init[k]);
        assert a + (sep + parts[|parts| - 1]) == Join(parts, sep);
        assert StartsAt(Join(parts, sep), p, parts[k]);
      }
    }
  }

  lemma StartsAtRight(a: string, z: string, p: nat, w: string)
    requires StartsAt(a, p, w)
    ensures StartsAt(a + z, p, w)
  {
    assert (a + z)[p..p + |w|] == a[p..p + |w|];
  }

  lemma StartsAtLeft(z: string, a: string, p: nat, w: string)
    requires StartsAt(a, p, w)
    ensures StartsAt(z + a, |z| + p, w)
  {
    assert (z + a)[|z| + p..|z| + p + |w|] == a[p..p + |w|];
  }

  /** Trimming both a text and a piece of it leaves the trimmed piece inside the trimmed text. */
  lemma TrimInside(x: string, p: nat, w: string)
    requires StartsAt(x, p, w)
    ensures exists q: nat :: StartsAt(Trim(x), q, Trim(w))
  {
    var l, t := TrimParts(x);
    var lw, tw := TrimParts(w);
    if tw == [] {
      assert StartsAt(t, 0, tw);
    } else {
      PieceInside(x, p, w, l, t, lw, tw);
    }
  }

  /**
   * A piece `tw` of `w`, which stands in `x` at `p`, that neither starts
   * nor ends with whitespace lies within the stretch `t` of `x` that only
   * whitespace surrounds.
   */
  lemma PieceInside(x: string, p: nat, w: string, l: nat, t: string, lw: nat, tw: string)
    requires p + |w| <= |x| && x[p..p + |w|] == w
    requires lw + |tw| <= |w| && w[lw..lw + |tw|] == tw
    requires l + |t| <= |x| && x[l..l + |t|] == t
    requires tw != [] && !IsSpace(tw[0]) && !IsSpace(tw[|tw| - 1])
    requires forall i :: 0 <= i < l ==> IsSpace(x[i])
    requires AllSpace(x[l + |t|..])
    ensures l <= p + lw && StartsAt(t, p + lw - l, tw)
  {
    var start := p + lw;
    SubSlice(x, p, p + |w|, start, start + |tw|);
    assert x[start..start + |tw|] == tw;
    assert x[start] == tw[0];
    var last := start + |tw| - 1;
    assert x[last] == tw[|tw| - 1];
    SubSlice(x, l, l + |t|, start, start + |tw|);
  }

  /** `trim()` is the slice between the leading and the trailing whitespace. */
  /** `trim()` keeps the stretch between a run of leading and a run of trailing whitespace. */
  lemma TrimParts(s: string) returns (l: nat, t: string)
    ensures t == Trim(s) && l == LeadingSpaces(s)
    ensures l + |t| <= |s| && s[l..l + |t|] == t
    ensures forall i :: 0 <= i < l ==> IsSpace(s[i])
    ensures AllSpace(s[l + |t|..])
    ensures t == [] || (!IsSpace(t[0]) && !IsSpace(t[|t| - 1]))
  {
    l, t := LeadingSpaces(s), Trim(s);
  }

  lemma SubSlice(x: string, a: nat, b: nat, c: nat, d: nat)
    requires a <= c <= d <= b <= |x|
    ensures x[c..d] == x[a..b][c - a..d - a]
  {
    forall i | 0 <= i < d - c ensures x[c..d][i] == x[a..b][c - a..d - a][i] {
    }
  }

  /** Whatever stands in the first pass's text, and every run, stands in the joined text. */
  lemma PdfJoinedHolds(first: string, runs: seq<string>, t: string, p: nat)
    requires StartsAt(first, p, t) || t in runs
    ensures exists px: nat :: StartsAt(PdfJoined(first, runs), px, t)
  {
    var x := PdfJoined(first, runs);
    if StartsAt(first, p, t) {
      if runs != [] {
        StartsAtRight(first, " " + Join(runs, " "), p, t);
        assert first + (" " + Join(runs, " ")) == x;
      }
      assert StartsAt(x, p, t);
    } else {
      var k :| 0 <= k < |runs| && runs[k] == t;
      JoinHolds(runs, " ", k);
      var p0: nat :| StartsAt(Join(runs, " "), p0, t);
      StartsAtLeft(first + " ", Join(runs, " "), p0, t);
      assert StartsAt(x, |first + " "| + p0, t);
    }
  }

  /**
   * Every text kept by the first pass and every run found by the second
   * stands, trimmed, in the PDF text.
   */
  lemma PdfTextHolds(content: string, t: string)
    requires t in KeptPdfStrings(ParenStrings(content, 0)) || t in ReadableRuns(content, 0)
    ensures exists q: nat :: StartsAt(PdfText(content), q, Trim(t))
  {
    var strings := ParenStrings(content, 0);
    var kept := KeptPdfStrings(strings);
    var first := if strings != [] then Join(kept, " ") else "";
    var runs := ReadableRuns(content, 0);
    var p: nat := 0;
    if t in kept {
      var k :| 0 <= k < |kept| && kept[k] == t;
      assert strings != [];
      JoinHolds(kept, " ", k);
      p :| StartsAt(first, p, t);
    }
    PdfJoinedHolds(first, runs, t, p);
    var x := PdfJoined(first, runs);
    var px: nat :| StartsAt(x, px, t);
    TrimInside(x, px, t);
    var q: nat :| StartsAt(Trim(x), q, Trim(t));
    assert PdfText(content) == Trim(x);
    assert StartsAt(PdfText(content), q, Trim(t));
  }

  /**
   * A maximal run of at least 10 readable characters starts at `a`, which
   * is at or after `i`; the scan treats a run starting at `i` as maximal.
   */
  predicate LongRunAt(s: string, i: nat, a: nat) {
    i <= a < |s| && (a == i || !Readable(s[a - 1])) && RunEnd(s, a) >= a + 10
  }

  /** Every run found is a long maximal run starting at or after `i`. */
  lemma {:induction false} ReadableRunsSound(s: string, i: nat)
    requires i <= |s|
    ensures forall t :: t in ReadableRuns(s, i) ==> exists a: nat :: LongRunAt(s, i, a) && t == s[a..RunEnd(s, a)]
    decreases |s| - i
  {
    if i < |s| {
      if Readable(s[i]) {
        var e := RunEnd(s, i);
        ReadableRunsSound(s, e);
        assert RunEnd(s, e) == e;
        forall t | t in ReadableRuns(s, i) ensures exists a: nat :: LongRunAt(s, i, a) && t == s[a..RunEnd(s, a)] {
          if e - i >= 10 && t == s[i..e] {
            assert LongRunAt(s, i, i);
          } else {
            assert t in ReadableRuns(s, e);
            var a: nat :| LongRunAt(s, e, a) && t == s[a..RunEnd(s, a)];
            assert a != e;
            assert LongRunAt(s, i, a);
          }
        }
      } else {
        ReadableRunsSound(s, i + 1);
        forall t | t in ReadableRuns(s, i) ensures exists a: nat :: LongRunAt(s, i, a) && t == s[a..RunEnd(s, a)] {
          var a: nat :| LongRunAt(s, i + 1, a) && t == s[a..RunEnd(s, a)];
          assert LongRunAt(s, i, a);
        }
      }
    }
  }

  /**
   * Every maximal run of at least 10 readable characters starting at or
   * after `i` is found (a run starting at `i` counts as maximal).
   */
  lemma {:induction false} ReadableRunsComplete(s: string, i: nat, a: nat)
    requires LongRunAt(s, i, a)
    ensures s[a..RunEnd(s, a)] in ReadableRuns(s, i)
    decreases a - i
  {
    if i < a {
      if Readable(s[i]) {
        var e := RunEnd(s, i);
        ReadableRunsComplete(s, e, a);
      } else {
        ReadableRunsComplete(s, i + 1, a);
      }
    }
  }

  /**
   * The scan goes straight to the first long maximal run at or after `i`,
   * takes it and resumes at its end; this fixes the order of the runs.
   */
  lemma {:induction false} ReadableRunsFirst(s: string, i: nat, a: nat)
    requires LongRunAt(s, i, a)
    requires forall a': nat :: i <= a' < a ==> !LongRunAt(s, i, a')
    ensures ReadableRuns(s, i) == [s[a..RunEnd(s, a)]] + ReadableRuns(s, RunEnd(s, a))
    decreases a - i
  {
    if i < a {
      if Readable(s[i]) {
        var e := RunEnd(s, i);
        assert !LongRunAt(s, i, i);
        assert !Readable(s[a - 1]);
        assert e < a;
        assert RunEnd(s, e) == e;
        forall a': nat | e <= a' < a ensures !LongRunAt(s, e, a') {
          assert !LongRunAt(s, i, a');
        }
        ReadableRunsFirst(s, e, a);
      } else {
        var j := i + 1;
        forall a': nat | j <= a' < a ensures !LongRunAt(s, j, a') {
          assert !LongRunAt(s, i, a');
        }
        ReadableRunsFirst(s, j, a);
      }
    }
  }

  /** With no long maximal run at or after `i`, nothing is found. */
  lemma {:induction false} ReadableRunsNone(s: string, i: nat)
    requires i <= |s|
    requires forall a: nat :: !LongRunAt(s, i, a)
    ensures ReadableRuns(s, i) == []
    decreases |s| - i
  {
    if i < |s| {
      if Readable(s[i]) {
        var e := RunEnd(s, i);
        assert !LongRunAt(s, i, i);
        forall a: nat ensures !LongRunAt(s, e, a) {
          assert !LongRunAt(s, i, a);
        }
        ReadableRunsNone(s, e);
      } else {
        var j := i + 1;
        forall a: nat ensures !LongRunAt(s, j, a) {
          assert !LongRunAt(s, i, a);
        }
        ReadableRunsNone(s, j);
      }
    }
  }

  /** The start of the run of readable characters that ends at `j`, not going back past `i`. */
  function RunStart(s: string, i: nat, j: nat): (a: nat)
    requires i <= j <= |s|
    ensures i <= a <= j
    ensures a == i || !Readable(s[a - 1])
    ensures forall k :: a <= k < j ==> Readable(s[k])
    decreases j - i
  {
    if j == i || !Readable(s[j - 1]) then j else RunStart(s, i, j - 1)
  }

  /** A readable stretch of ten characters or more is always picked up, within the run that holds it. */
  lemma ReadableRunFound(s: string, i: nat, j: nat)
    requires i <= j && j + 10 <= |s|
    requires forall k :: j <= k < j + 10 ==> Readable(s[k])
    ensures exists a: nat :: i <= a <= j && RunEnd(s, a) >= j + 10 && s[a..RunEnd(s, a)] in ReadableRuns(s, i)
  {
    var a := RunStart(s, i, j);
    ReadableRunsComplete(s, i, a);
  }

  // ---------------------------------------------------------------------------
  // DOCX

  /** A match of `/<w:t[^>]*>([^<]+)<\/w:t>/g`: `<w:t`, the attributes, `>`, the text, `</w:t>`. */
  datatype DocxRun = DocxRun(attrs: string, inner: string) {
    function Whole(): string {
      "<w:t" + attrs + ">" + inner + "</w:t>"
    }
    predicate WellFormed() {
      '>' !in attrs && inner != [] && '<' !in inner
    }
  }

  function StartsAt(s: string, i: nat, w: string): bool {
    i + |w| <= |s| && s[i..i + |w|] == w
  }

  /**
   * The match starting at `a`, if any: after `<w:t` the attributes run to
   * the first `>`, the text to the next `<`, which must open `</w:t>`.
   */
  function DocxAt(s: string, a: nat): (r: Option<DocxRun>)
    ensures r.Some? ==> r.value.WellFormed()
  {
    if StartsAt(s, a, "<w:t") then
      match IndexFrom(s, '>', a + 4)
      case Some(g) =>
        (match IndexFrom(s, '<', g + 1)
         case Some(h) =>
           if h > g + 1 && StartsAt(s, h, "</w:t>") then
             NoCharInSlice(s, a + 4, g, '>');
             NoCharInSlice(s, g + 1, h, '<');
             Some(DocxRun(s[a + 4..g], s[g + 1..h]))
           else None
         case None => None)
      case None => None
    else None
  }

  /** A match of the DOCX pattern whose text stands in `s` at `a`. */
  predicate DocxMatch(s: string, a: nat, m: DocxRun) {
    m.WellFormed() && StartsAt(s, a, m.Whole())
  }

  /** A run is the match read at `a` exactly when it is well formed and its text stands at `a`. */
  lemma DocxAtExact(s: string, a: nat, m: DocxRun)
    ensures DocxAt(s, a) == Some(m) <==> DocxMatch(s, a, m)
  {
    if DocxAt(s, a) == Some(m) {
      DocxAtMatches(s, a);
    }
    if DocxMatch(s, a, m) {
      DocxMatchFound(s, a, m);
    }
  }

  lemma StartsAtSplit(s: string, a: nat, x: string, y: string)
    requires StartsAt(s, a, x + y)
    ensures StartsAt(s, a, x) && StartsAt(s, a + |x|, y)
  {
    var t := s[a..a + |x| + |y|];
    assert s[a..a + |x|] == t[..|x|];
    assert s[a + |x|..a + |x| + |y|] == t[|x|..];
  }

  lemma StartsAtJoin(s: string, a: nat, x: string, y: string)
    requires StartsAt(s, a, x) && StartsAt(s, a + |x|, y)
    ensures StartsAt(s, a, x + y)
  {
    assert s[a..a + |x| + |y|] == s[a..a + |x|] + s[a + |x|..a + |x| + |y|];
  }

  /** The five parts of a match stand one after the other. */
  lemma DocxParts(s: string, a: nat, m: DocxRun)
    requires StartsAt(s, a, m.Whole())
    ensures StartsAt(s, a, "<w:t")
    ensures StartsAt(s, a + 4, m.attrs)
    ensures StartsAt(s, a + 4 + |m.attrs|, ">")
    ensures StartsAt(s, a + 5 + |m.attrs|, m.inner)
    ensures StartsAt(s, a + 5 + |m.attrs| + |m.inner|, "</w:t>")
  {
    StartsAtSplit(s, a, "<w:t" + m.attrs + ">" + m.inner, "</w:t>");
    StartsAtSplit(s, a, "<w:t" + m.attrs + ">", m.inner);
    StartsAtSplit(s, a, "<w:t" + m.attrs, ">");
    StartsAtSplit(s, a, "<w:t", m.attrs);
  }

  lemma DocxAtMatches(s: string, a: nat)
    requires DocxAt(s, a).Some?
    ensures DocxMatch(s, a, DocxAt(s, a).value)
  {
    var m := DocxAt(s, a).value;
    var g := IndexFrom(s, '>', a + 4).value;
    var h := IndexFrom(s, '<', g + 1).value;
    assert m.attrs == s[a + 4..g] && m.inner == s[g + 1..h];
    assert StartsAt(s, g, ">") by {
      assert s[g..g + 1] == [s[g]];
    }
    StartsAtJoin(s, a, "<w:t", m.attrs);
    StartsAtJoin(s, a, "<w:t" + m.attrs, ">");
    StartsAtJoin(s, a, "<w:t" + m.attrs + ">", m.inner);
    StartsAtJoin(s, a, "<w:t" + m.attrs + ">" + m.inner, "</w:t>");
  }

  lemma DocxMatchFound(s: string, a: nat, m: DocxRun)
    requires DocxMatch(s, a, m)
    ensures DocxAt(s, a) == Some(m)
  {
    DocxParts(s, a, m);
    DocxPartsRead(s, a, m.attrs, m.inner);
  }

  /** The reading at `a` of the parts of a well-formed run. */
  lemma DocxPartsRead(s: string, a: nat, attrs: string, inner: string)
    requires '>' !in attrs && '<' !in inner && inner != []
    requires StartsAt(s, a, "<w:t") && StartsAt(s, a + 4, attrs) && StartsAt(s, a + 4 + |attrs|, ">")
    requires StartsAt(s, a + 5 + |attrs|, inner) && StartsAt(s, a + 5 + |attrs| + |inner|, "</w:t>")
    ensures DocxAt(s, a) == Some(DocxRun(attrs, inner))
  {
    var m := DocxRun(attrs, inner);
    var g := a + 4 + |attrs|;
    var h := g + 1 + |inner|;
    assert s[a + 4..g] == attrs && s[g + 1..h] == inner;
    DocxMatchOpening(s, a, m);
    DocxMatchText(s, a, m);
    DocxAtReads(s, a, g, h);
  }

  /** What the reading at `a` gives once both delimiters are known. */
  lemma DocxAtReads(s: string, a: nat, g: nat, h: nat)
    requires StartsAt(s, a, "<w:t") && IndexFrom(s, '>', a + 4) == Some(g)
    requires IndexFrom(s, '<', g + 1) == Some(h) && h > g + 1 && StartsAt(s, h, "</w:t>")
    ensures DocxAt(s, a) == Some(DocxRun(s[a + 4..g], s[g + 1..h]))
  {
  }

  /** At a match, the first `>` after `<w:t` closes the attributes. */
  lemma DocxMatchOpening(s: string, a: nat, m: DocxRun)
    requires '>' !in m.attrs
    requires StartsAt(s, a + 4, m.attrs) && StartsAt(s, a + 4 + |m.attrs|, ">")
    ensures IndexFrom(s, '>', a + 4) == Some(a + 4 + |m.attrs|)
  {
    var g := a + 4 + |m.attrs|;
    forall k | a + 4 <= k < g ensures s[k] != '>' {
      assert s[k] == s[a + 4..g][k - a - 4];
    }
    assert s[g] == s[g..g + 1][0];
    IndexFromExact(s, '>', a + 4, g);
  }

  /** At a match, the text runs from that `>` to the next `<`. */
  lemma DocxMatchText(s: string, a: nat, m: DocxRun)
    requires '<' !in m.inner
    requires StartsAt(s, a + 5 + |m.attrs|, m.inner) && StartsAt(s, a + 5 + |m.attrs| + |m.inner|, "</w:t>")
    ensures IndexFrom(s, '<', a + 5 + |m.attrs|) == Some(a + 5 + |m.attrs| + |m.inner|)
  {
    var g := a + 5 + |m.attrs|;
    var h := g + |m.inner|;
    forall k | g <= k < h ensures s[k] != '<' {
      assert s[k] == s[g..h][k - g];
    }
    assert s[h] == s[h..h + 6][0];
    IndexFromExact(s, '<', g, h);
  }

  lemma IndexFromExact(s: string, c: char, i: nat, j: nat)
    requires i <= j < |s| && s[j] == c
    requires forall k :: i <= k < j ==> s[k] != c
    ensures IndexFrom(s, c, i) == Some(j)
  {
  }

  /**
   * The matches of `/<w:t[^>]*>([^<]+)<\/w:t>/g` from `i` on. Where no match
   * starts the search moves one character on; after a match it resumes
   * behind it.
   */
  function DocxRuns(s: string, i: nat): (r: seq<DocxRun>)
    ensures forall k :: 0 <= k < |r| ==> r[k].WellFormed()
    decreases |s| - i
  {
    if i >= |s| then []
    else (if DocxAt(s, i).Some? then [DocxAt(s, i).value] else []) + DocxRuns(s, DocxNext(s, i))
  }

  /** Where the search resumes: behind the match at `i`, or one character on. */
  function DocxNext(s: string, i: nat): (n: nat)
    ensures n > i
  {
    match DocxAt(s, i)
    case Some(m) => i + |m.Whole()|
    case None => i + 1
  }

  /** Every run found is a match whose text stands in `s` at or after `i`. */
  lemma {:induction false} DocxRunsSound(s: string, i: nat)
    ensures forall m :: m in DocxRuns(s, i) ==> exists a: nat :: i <= a && DocxMatch(s, a, m)
    decreases |s| - i
  {
    if i < |s| {
      if DocxAt(s, i).Some? {
        DocxAtMatches(s, i);
      }
      DocxRunsSound(s, DocxNext(s, i));
    }
  }

  /**
   * A match at `a` is found when no match starting between `i` and `a`
   * runs over `a`; in particular the first match at or after `i` is.
   */
  lemma DocxRunsComplete(s: string, i: nat, a: nat, m: DocxRun)
    requires i <= a && DocxMatch(s, a, m)
    requires forall a': nat, m': DocxRun :: i <= a' < a && DocxMatch(s, a', m') ==> a' + |m'.Whole()| <= a
    ensures m in DocxRuns(s, i)
  {
    DocxMatchFound(s, a, m);
    forall a': nat | i <= a' < a ensures DocxNext(s, a') <= a {
      if DocxAt(s, a').Some? {
        DocxAtMatches(s, a');
      }
    }
    DocxRunsReach(s, i, a);
  }

  /** A run read at `a` is a match there. */
  lemma DocxAtSound(s: string, a: nat)
    ensures DocxAt(s, a).Some? ==> DocxMatch(s, a, DocxAt(s, a).value)
  {
    if DocxAt(s, a).Some? {
      DocxAtMatches(s, a);
    }
  }

  /**
   * The scan goes straight to the first match at or after `i`, takes it
   * and resumes behind it; this fixes the order of the runs and leaves out
   * the matches it jumps over.
   */
  lemma DocxRunsFirst(s: string, i: nat, a: nat, m: DocxRun)
    requires i <= a && DocxMatch(s, a, m)
    requires forall a': nat, m': DocxRun :: i <= a' < a ==> !DocxMatch(s, a', m')
    ensures DocxRuns(s, i) == [m] + DocxRuns(s, a + |m.Whole()|)
  {
    DocxMatchFound(s, a, m);
    DocxNoneBefore(s, i, a);
    DocxRunsSkip(s, i, a);
    assert DocxNext(s, a) == a + |m.Whole()|;
  }

  lemma DocxNoneBefore(s: string, i: nat, a: nat)
    requires forall a': nat, m': DocxRun :: i <= a' < a ==> !DocxMatch(s, a', m')
    ensures forall a': nat :: i <= a' < a ==> DocxAt(s, a').None?
  {
    forall a': nat | i <= a' < a ensures DocxAt(s, a').None? {
      DocxAtSound(s, a');
    }
  }

  lemma {:induction false} DocxRunsSkip(s: string, i: nat, a: nat)
    requires i <= a && DocxAt(s, a).Some?
    requires forall a': nat :: i <= a' < a ==> DocxAt(s, a').None?
    ensures DocxRuns(s, i) == [DocxAt(s, a).value] + DocxRuns(s, DocxNext(s, a))
    decreases a - i
  {
    DocxAtMatches(s, a);
    if i < a {
      assert DocxNext(s, i) == i + 1;
      DocxRunsSkip(s, i + 1, a);
    }
  }

  /** With no match at or after `i`, nothing is found. */
  lemma DocxRunsNone(s: string, i: nat)
    requires forall a: nat, m: DocxRun :: i <= a ==> !DocxMatch(s, a, m)
    ensures DocxRuns(s, i) == []
  {
    forall a: nat | i <= a ensures DocxAt(s, a).None? {
      DocxAtSound(s, a);
    }
    DocxRunsEmpty(s, i);
  }

  lemma {:induction false} DocxRunsEmpty(s: string, i: nat)
    requires forall a: nat :: i <= a ==> DocxAt(s, a).None?
    ensures DocxRuns(s, i) == []
    decreases |s| - i
  {
    if i < |s| {
      assert DocxNext(s, i) == i + 1;
      DocxRunsEmpty(s, i + 1);
    }
  }

  /** The search from `i` comes to `a` when no step on the way jumps over it. */
  lemma {:induction false} DocxRunsReach(s: string, i: nat, a: nat)
    requires i <= a && DocxAt(s, a).Some?
    requires forall a': nat :: i <= a' < a ==> DocxNext(s, a') <= a
    ensures DocxAt(s, a).value in DocxRuns(s, i)
    decreases a - i
  {
    if i == a {
      DocxAtMatches(s, a);
    } else {
      DocxRunsReach(s, DocxNext(s, i), a);
    }
  }

  /** `replace(/<[^>]+>/g, '')`: removes every `<`, at least one non-`>`, `>`. */
  function StripTags(s: string): string
    decreases |s|
  {
    if s == [] then []
    else if s[0] == '<' then
      match IndexFrom(s, '>', 1)
      case Some(k) => if k >= 2 then StripTags(s[k + 1..]) else [s[0]] + StripTags(s[1..])
      case None => [s[0]] + StripTags(s[1..])
    else [s[0]] + StripTags(s[1..])
  }

  lemma {:induction false} StripPlain(s: string)
    requires '<' !in s
    ensures StripTags(s) == s
  {
    if s != [] {
      assert '<' !in s[1..] by {
        forall c | c in s[1..] ensures c in s { }
      }
      StripPlain(s[1..]);
    }
  }

  lemma {:induction false} StripPrefixTag(tag: string, rest: string)
    requires |tag| >= 3 && tag[0] == '<' && tag[|tag| - 1] == '>'
    requires forall k :: 1 <= k < |tag| - 1 ==> tag[k] != '>'
    ensures StripTags(tag + rest) == StripTags(rest)
  {
    var s := tag + rest;
    assert forall k :: 0 <= k < |tag| ==> s[k] == tag[k];
    assert s[0] == '<';
    assert IndexFrom(s, '>', 1) == Some(|tag| - 1) by {
      var r := IndexFrom(s, '>', 1);
      assert s[|tag| - 1] == '>';
      assert forall k :: 1 <= k < |tag| - 1 ==> s[k] != '>';
    }
    assert s[|tag|..] == rest;
  }

  /** Stripping the tags from a match leaves exactly the element's text. */
  lemma StripDocxRun(m: DocxRun)
    requires m.WellFormed()
    ensures StripTags(m.Whole()) == m.inner
  {
    var open := "<w:t" + m.attrs + ">";
    assert m.Whole() == open + (m.inner + "</w:t>");
    assert forall k :: 1 <= k < |open| - 1 ==> open[k] != '>' by {
      forall k | 4 <= k < |open| - 1 ensures open[k] != '>' {
        assert open[k] == m.attrs[k - 4];
      }
    }
    StripPrefixTag(open, m.inner + "</w:t>");
    StripInnerThenClose(m.inner);
  }

  lemma {:induction false} StripInnerThenClose(inner: string)
    requires '<' !in inner
    ensures StripTags(inner + "</w:t>") == inner
  {
    if inner == [] {
      StripPrefixTag("</w:t>", "");
      assert inner + "</w:t>" == "</w:t>" + "";
      assert StripTags("") == "";
    } else {
      assert (inner + "</w:t>")[1..] == inner[1..] + "</w:t>";
      assert '<' !in inner[1..] by {
        forall c | c in inner[1..] ensures c in inner { }
      }
      StripInnerThenClose(inner[1..]);
      assert inner == [inner[0]] + inner[1..];
    }
  }

  function StrippedRuns(ms: seq<DocxRun>): (r: seq<string>)
    ensures |r| == |ms|
  {
    seq(|ms|, k requires 0 <= k < |ms| => StripTags(ms[k].Whole()))
  }

  /** The text scraped from a DOCX body, before the length check and the cleanup. */
  function DocxText(content: string): string {
    var ms := DocxRuns(content, 0);
    if ms != [] then Join(StrippedRuns(ms), " ") else ""
  }

  /** The DOCX text is the `<w:t>` element texts joined by single spaces. */
  lemma DocxTextIsInnerTexts(content: string)
    ensures var ms := DocxRuns(content, 0);
      DocxText(content) == Join(seq(|ms|, k requires 0 <= k < |ms| => ms[k].inner), " ")
  {
    var ms := DocxRuns(content, 0);
    var inners := seq(|ms|, k requires 0 <= k < |ms| => ms[k].inner);
    forall k | 0 <= k < |ms| ensures StrippedRuns(ms)[k] == inners[k] {
      StripDocxRun(ms[k]);
    }
    assert StrippedRuns(ms) == inners;
  }

  // ---------------------------------------------------------------------------
  // Cleanup

  /** The characters of `s` that are not whitespace, in order. */
  function NonSpace(s: string): string
  {
    if s == [] then [] else (if IsSpace(s[0]) then [] else [s[0]]) + NonSpace(s[1..])
  }

  /** Leading whitespace holds none of the other characters. */
  lemma {:induction false} NonSpaceTrimStart(s: string)
    ensures NonSpace(TrimStart(s)) == NonSpace(s)
    decreases |s|
  {
    if s != [] && IsSpace(s[0]) {
      assert TrimStart(s) == TrimStart(s[1..]) by {
        assert LeadingSpaces(s) == 1 + LeadingSpaces(s[1..]);
        assert s[1..][LeadingSpaces(s[1..])..] == s[LeadingSpaces(s)..];
      }
      NonSpaceTrimStart(s[1..]);
    } else {
      assert LeadingSpaces(s) == 0;
      assert s[0..] == s;
    }
  }

  /**
   * `replace(/\s+/g, ' ')`: every run of whitespace becomes one space, and
   * the other characters are kept, in order.
   */
  function CollapseSpaces(s: string): (r: string)
    ensures r == [] <==> s == []
    ensures s != [] ==> r[0] == (if IsSpace(s[0]) then ' ' else s[0])
    ensures NonSpace(r) == NonSpace(s)
    decreases |s|
  {
    if s == [] then []
    else if IsSpace(s[0]) then
      var tail := CollapseSpaces(TrimStart(s));
      NonSpaceTrimStart(s);
      assert (" " + tail)[1..] == tail;
      " " + tail
    else
      var tail := CollapseSpaces(s[1..]);
      assert ([s[0]] + tail)[1..] == tail;
      [s[0]] + tail
  }

  /** Before text that does not start with whitespace, the leading whitespace is cut from the prefix alone. */
  lemma TrimStartAppend(x: string, z: string)
    requires z != [] && !IsSpace(z[0])
    ensures TrimStart(x + z) == TrimStart(x) + z
  {
    LeadingSpacesAppend(x, z);
    DropAppend(x, z, LeadingSpaces(x));
  }

  lemma DropAppend(x: string, z: string, l: nat)
    requires l <= |x|
    ensures (x + z)[l..] == x[l..] + z
  {
  }

  lemma {:induction false} LeadingSpacesAppend(x: string, z: string)
    requires z != [] && !IsSpace(z[0])
    ensures LeadingSpaces(x + z) == LeadingSpaces(x)
    decreases |x|
  {
    if x == [] {
      assert x + z == z;
    } else if IsSpace(x[0]) {
      assert (x + z)[1..] == x[1..] + z;
      LeadingSpacesAppend(x[1..], z);
    } else {
      assert (x + z)[0] == x[0];
    }
  }

  /** A character that is not whitespace cuts the collapse in two: what comes before it and after it collapse separately. */
  lemma {:induction false} CollapseAround(x: string, c: char, y: string)
    requires !IsSpace(c)
    ensures CollapseSpaces(x + [c] + y) == CollapseSpaces(x) + [c] + CollapseSpaces(y)
    decreases |x|
  {
    if x == [] {
      assert x + [c] + y == [c] + y;
      CollapseKeepsHead(c, y);
    } else if IsSpace(x[0]) {
      var rest := TrimStart(x);
      if rest != [] {
        CollapseAround(rest, c, y);
      }
      CollapseAroundBlank(x, c, y);
    } else {
      CollapseAround(x[1..], c, y);
      CollapseAroundWord(x, c, y);
    }
  }

  /** The step of `CollapseAround` for a prefix that starts with whitespace. */
  lemma CollapseAroundBlank(x: string, c: char, y: string)
    requires !IsSpace(c) && x != [] && IsSpace(x[0])
    requires TrimStart(x) != [] ==>
      CollapseSpaces(TrimStart(x) + [c] + y) == CollapseSpaces(TrimStart(x)) + [c] + CollapseSpaces(y)
    ensures CollapseSpaces(x + [c] + y) == CollapseSpaces(x) + [c] + CollapseSpaces(y)
  {
    var rest := TrimStart(x);
    var s := x + [c] + y;
    var b := CollapseSpaces(y);
    SplitAround(x, c, y);
    TrimStartAppend(x, [c] + y);
    assert TrimStart(s) == rest + ([c] + y);
    assert CollapseSpaces(s) == " " + CollapseSpaces(rest + ([c] + y));
    assert CollapseSpaces(x) == " " + CollapseSpaces(rest);
    if rest == [] {
      assert rest + ([c] + y) == [c] + y;
      CollapseKeepsHead(c, y);
      assert " " + ([c] + b) == " " + [c] + b;
    } else {
      SplitAround(rest, c, y);
      RegroupAround(" ", CollapseSpaces(rest), c, b);
    }
  }

  /** The step of `CollapseAround` for a prefix that starts with another character. */
  lemma CollapseAroundWord(x: string, c: char, y: string)
    requires !IsSpace(c) && x != [] && !IsSpace(x[0])
    requires CollapseSpaces(x[1..] + [c] + y) == CollapseSpaces(x[1..]) + [c] + CollapseSpaces(y)
    ensures CollapseSpaces(x + [c] + y) == CollapseSpaces(x) + [c] + CollapseSpaces(y)
  {
    var s := x + [c] + y;
    TailAround(x, c, y);
    assert CollapseSpaces(s) == [x[0]] + CollapseSpaces(x[1..] + [c] + y);
    assert CollapseSpaces(x) == [x[0]] + CollapseSpaces(x[1..]);
    RegroupAround([x[0]], CollapseSpaces(x[1..]), c, CollapseSpaces(y));
  }

  lemma TailAround(x: string, c: char, y: string)
    requires x != []
    ensures (x + [c] + y)[0] == x[0] && (x + [c] + y)[1..] == x[1..] + [c] + y
  {
  }

  lemma SplitAround(x: string, c: char, y: string)
    ensures x + [c] + y == x + ([c] + y)
  {
  }

  lemma RegroupAround(p: string, a: string, c: char, b: string)
    ensures p + (a + [c] + b) == p + a + [c] + b
  {
  }

  lemma CollapseKeepsHead(c: char, z: string)
    requires !IsSpace(c)
    ensures CollapseSpaces([c] + z) == [c] + CollapseSpaces(z)
  {
    assert ([c] + z)[1..] == z;
  }

  /** A run of whitespace on its own collapses to a single space. */
  lemma CollapseBlank(w: string)
    requires w != [] && AllSpace(w)
    ensures CollapseSpaces(w) == " "
  {
    assert LeadingSpaces(w) == |w|;
    assert TrimStart(w) == [];
  }

  /** After the collapse, the only whitespace is single spaces. */
  lemma {:induction false} CollapseLeavesSingleSpaces(s: string)
    ensures forall k :: 0 <= k < |CollapseSpaces(s)| ==> IsSpace(CollapseSpaces(s)[k]) ==> CollapseSpaces(s)[k] == ' '
    ensures forall k :: 0 <= k < |CollapseSpaces(s)| - 1 ==> !(IsSpace(CollapseSpaces(s)[k]) && IsSpace(CollapseSpaces(s)[k + 1]))
    decreases |s|
  {
    if s != [] {
      var r := CollapseSpaces(s);
      if IsSpace(s[0]) {
        var rest := TrimStart(s);
        CollapseLeavesSingleSpaces(rest);
        var tail := CollapseSpaces(rest);
        assert r == " " + tail;
        assert tail != [] ==> !IsSpace(tail[0]);
        forall k | 0 <= k < |r| ensures IsSpace(r[k]) ==> r[k] == ' ' {
          if k > 0 {
            assert r[k] == tail[k - 1];
            assert IsSpace(tail[k - 1]) ==> tail[k - 1] == ' ';
          } else {
            assert r[0] == ' ';
          }
        }
        forall k | 0 <= k < |r| - 1 ensures !(IsSpace(r[k]) && IsSpace(r[k + 1])) {
          assert r[k + 1] == tail[k];
          if k > 0 {
            assert r[k] == tail[k - 1];
            assert !(IsSpace(tail[k - 1]) && IsSpace(tail[k]));
          }
        }
      } else {
        CollapseLeavesSingleSpaces(s[1..]);
        var tail := CollapseSpaces(s[1..]);
        assert r == [s[0]] + tail;
        forall k | 0 <= k < |r| ensures IsSpace(r[k]) ==> r[k] == ' ' {
          if k > 0 {
            assert r[k] == tail[k - 1];
            assert IsSpace(tail[k - 1]) ==> tail[k - 1] == ' ';
          } else {
            assert r[0] == s[0];
          }
        }
        forall k | 0 <= k < |r| - 1 ensures !(IsSpace(r[k]) && IsSpace(r[k + 1])) {
          assert r[k + 1] == tail[k];
          if k > 0 {
            assert r[k] == tail[k - 1];
            assert !(IsSpace(tail[k - 1]) && IsSpace(tail[k]));
          }
        }
      }
    }
  }

  /** The characters kept by the cleanup: `[\x20-\x7E؀-ۿऀ-ॿ]`. */
  predicate Allowed(c: char) {
    (' ' <= c <= '~') || ('\U{0600}' <= c <= '\U{06FF}') || ('\U{0900}' <= c <= '\U{097F}')
  }

  /**
   * What the second replacement puts for one character. The pattern works
   * on UTF-16 code units, so a character beyond U+FFFF, being two units,
   * becomes two spaces.
   */
  function Replacement(c: char): (r: string)
    ensures forall k :: 0 <= k < |r| ==> Allowed(r[k])
    ensures Allowed(c) ==> r == [c]
    ensures !Allowed(c) ==> |r| == Utf16Length([c]) && forall k :: 0 <= k < |r| ==> r[k] == ' '
  {
    assert [c][..0] == [];
    if Allowed(c) then [c] else if c as int > 0xFFFF then "  " else " "
  }

  /** `replace(/[^\x20-\x7E؀-ۿऀ-ॿ]/g, ' ')`. */
  function ReplaceDisallowed(s: string): (r: string)
    ensures forall k :: 0 <= k < |r| ==> Allowed(r[k])
    ensures (forall k :: 0 <= k < |s| ==> Allowed(s[k])) ==> r == s
    decreases |s|
  {
    if s == [] then []
    else
      var head := Replacement(s[0]);
      var tail := ReplaceDisallowed(s[1..]);
      assert forall k :: 0 <= k < |head + tail| ==> (head + tail)[k] == (if k < |head| then head[k] else tail[k - |head|]);
      head + tail
  }

  /** The replacement works character by character: that of `a + b` is that of `a` followed by that of `b`. */
  lemma {:induction false} ReplaceDisallowedAppend(a: string, b: string)
    ensures ReplaceDisallowed(a + b) == ReplaceDisallowed(a) + ReplaceDisallowed(b)
    decreases |a|
  {
    if a == [] {
      assert a + b == b;
    } else {
      assert (a + b)[0] == a[0] && (a + b)[1..] == a[1..] + b;
      ReplaceDisallowedAppend(a[1..], b);
    }
  }

  /** One character is replaced by its `Replacement`. */
  lemma ReplaceDisallowedOne(c: char)
    ensures ReplaceDisallowed([c]) == Replacement(c)
  {
    assert [c][1..] == [];
  }

  /** Every UTF-16 unit becomes one character, so the length in units is kept. */
  lemma {:induction false} ReplaceDisallowedLength(s: string)
    ensures |ReplaceDisallowed(s)| == Utf16Length(s)
    decreases |s|
  {
    if s != [] {
      ReplaceDisallowedLength(s[1..]);
      assert s == [s[0]] + s[1..];
      Utf16LengthAppend([s[0]], s[1..]);
      assert [s[0]][..0] == [];
    }
  }

  /** The characters that survive the cleanup as they are: kept ones that are not whitespace, in order. */
  function Printed(s: string): string
  {
    if s == [] then [] else (if Allowed(s[0]) && !IsSpace(s[0]) then [s[0]] else []) + Printed(s[1..])
  }

  lemma {:induction false} PrintedAppend(a: string, b: string)
    ensures Printed(a + b) == Printed(a) + Printed(b)
    decreases |a|
  {
    if a == [] {
      assert a + b == b;
    } else {
      assert (a + b)[0] == a[0] && (a + b)[1..] == a[1..] + b;
      PrintedAppend(a[1..], b);
    }
  }

  lemma {:induction false} PrintedBlank(w: string)
    requires AllSpace(w)
    ensures Printed(w) == []
    decreases |w|
  {
    if w != [] {
      PrintedBlank(w[1..]);
    }
  }

  /** The printed characters are among the characters that are not whitespace. */
  lemma {:induction false} PrintedNonSpace(s: string)
    ensures Printed(NonSpace(s)) == Printed(s)
    decreases |s|
  {
    if s != [] {
      PrintedNonSpace(s[1..]);
      PrintedAppend(if IsSpace(s[0]) then [] else [s[0]], NonSpace(s[1..]));
      if !IsSpace(s[0]) {
        assert [s[0]][1..] == [];
      }
    }
  }

  /** The collapse changes whitespace only. */
  lemma CollapsePrinted(s: string)
    ensures Printed(CollapseSpaces(s)) == Printed(s)
  {
    PrintedNonSpace(s);
    PrintedNonSpace(CollapseSpaces(s));
  }

  /** The replacement blanks disallowed characters only. */
  lemma {:induction false} ReplacePrinted(s: string)
    ensures Printed(ReplaceDisallowed(s)) == Printed(s)
    decreases |s|
  {
    if s != [] {
      ReplacePrinted(s[1..]);
      var head := Replacement(s[0]);
      PrintedAppend(head, ReplaceDisallowed(s[1..]));
      if Allowed(s[0]) {
        assert head[1..] == [];
      } else {
        PrintedBlank(head);
      }
    }
  }

  /** `trim()` removes whitespace only. */
  lemma TrimPrinted(s: string)
    ensures Printed(Trim(s)) == Printed(s)
  {
    var l, t := TrimParts(s);
    PrintedAround(s, l, t);
  }

  /** A stretch that only whitespace surrounds prints as the whole text. */
  lemma PrintedAround(s: string, a: nat, t: string)
    requires a + |t| <= |s| && s[a..a + |t|] == t
    requires forall i :: 0 <= i < a ==> IsSpace(s[i])
    requires AllSpace(s[a + |t|..])
    ensures Printed(s) == Printed(t)
  {
    assert s == s[..a] + t + s[a + |t|..];
    PrintedAppend(s[..a] + t, s[a + |t|..]);
    PrintedAppend(s[..a], t);
    PrintedBlank(s[..a]);
    PrintedBlank(s[a + |t|..]);
  }

  /** The cleanup of non-image text: collapse whitespace, blank out other characters, trim. */
  function Clean(s: string): string {
    Trim(ReplaceDisallowed(CollapseSpaces(s)))
  }

  /** Text as the cleanup leaves it: only kept characters and no space at either end. */
  predicate IsCleanText(t: string) {
    && (forall k :: 0 <= k < |t| ==> Allowed(t[k]))
    && (t == [] || (t[0] != ' ' && t[|t| - 1] != ' '))
  }

  lemma CleanIsClean(s: string)
    ensures IsCleanText(Clean(s))
  {
    var u := ReplaceDisallowed(CollapseSpaces(s));
    AllowedTrim(u);
  }

  /** Every kept character that is not whitespace survives the cleanup, in order, and nothing else but spaces is added. */
  lemma CleanKeepsPrinted(s: string)
    ensures Printed(Clean(s)) == Printed(s)
  {
    CollapsePrinted(s);
    ReplacePrinted(CollapseSpaces(s));
    TrimPrinted(ReplaceDisallowed(CollapseSpaces(s)));
  }

  lemma AllowedTrim(u: string)
    requires forall k :: 0 <= k < |u| ==> Allowed(u[k])
    ensures forall k :: 0 <= k < |Trim(u)| ==> Allowed(Trim(u)[k])
  {
    var t := Trim(u);
    forall k | 0 <= k < |t| ensures Allowed(t[k]) {
      assert t[k] == u[LeadingSpaces(u) + k];
    }
  }

  /** No whitespace but single spaces. */
  predicate SingleSpaced(s: string) {
    && (forall k :: 0 <= k < |s| ==> IsSpace(s[k]) ==> s[k] == ' ')
    && (forall k :: 0 <= k < |s| - 1 ==> !(s[k] == ' ' && s[k + 1] == ' '))
  }

  /**
   * Text that already has only kept characters, no whitespace but single
   * spaces and no space at either end passes through the cleanup unchanged.
   */
  lemma CleanKeepsNormalText(s: string)
    requires forall k :: 0 <= k < |s| ==> Allowed(s[k])
    requires SingleSpaced(s)
    requires s == [] || (s[0] != ' ' && s[|s| - 1] != ' ')
    ensures Clean(s) == s
  {
    CollapseNoRuns(s);
    TrimUntouched(s);
  }

  /** Text with no whitespace at either end is its own trim. */
  lemma TrimUntouched(s: string)
    requires s == [] || (!IsSpace(s[0]) && !IsSpace(s[|s| - 1]))
    ensures Trim(s) == s
  {
    assert LeadingSpaces(s) == 0 && TrailingSpaces(s) == 0;
    assert s[0..] == s && s[..|s|] == s;
  }

  lemma {:induction false} CollapseNoRuns(s: string)
    requires SingleSpaced(s)
    ensures CollapseSpaces(s) == s
    decreases |s|
  {
    if s != [] {
      var t := s[1..];
      assert SingleSpaced(t) by {
        forall k | 0 <= k < |t| ensures IsSpace(t[k]) ==> t[k] == ' ' {
          assert t[k] == s[k + 1];
        }
        forall k | 0 <= k < |t| - 1 ensures !(t[k] == ' ' && t[k + 1] == ' ') {
          assert t[k] == s[k + 1] && t[k + 1] == s[k + 2];
        }
      }
      CollapseNoRuns(t);
      if IsSpace(s[0]) {
        assert t == [] || !IsSpace(t[0]) by {
          if t != [] {
            assert s[0] == ' ' && t[0] == s[1];
          }
        }
        assert LeadingSpaces(t) == 0;
        assert LeadingSpaces(s) == 1;
      }
      assert s == [s[0]] + t;
    }
  }

  /**
   * Because the blanking comes after the collapse, a control character next
   * to a space leaves two spaces in a row, and cleaning the result again
   * changes it: `"a\x01 b"` cleans to `"a  b"`, which cleans to `"a b"`.
   */
  lemma CleanCanLeaveDoubleSpace(x: char, c: char, y: char)
    requires Allowed(x) && !IsSpace(x) && Allowed(y) && !IsSpace(y)
    requires !Allowed(c) && !IsSpace(c) && c as int <= 0xFFFF
    ensures Clean([x, c, ' ', y]) == [x, ' ', ' ', y]
    ensures Clean(Clean([x, c, ' ', y])) == [x, ' ', y]
  {
    CleanControlBesideSpace(x, c, y);
    CleanDoubleSpace(x, y);
  }

  lemma CleanControlBesideSpace(x: char, c: char, y: char)
    requires Allowed(x) && !IsSpace(x) && Allowed(y) && !IsSpace(y)
    requires !Allowed(c) && !IsSpace(c) && c as int <= 0xFFFF
    ensures Clean([x, c, ' ', y]) == [x, ' ', ' ', y]
  {
    var s := [x, c, ' ', y];
    assert SingleSpaced(s);
    CollapseNoRuns(s);
    assert ReplaceDisallowed(s) == [x, ' ', ' ', y] by {
      assert s[1..] == [c, ' ', y] && s[2..] == [' ', y] && s[3..] == [y];
      assert ReplaceDisallowed([y]) == [y];
      assert ReplaceDisallowed([' ', y]) == [' ', y];
      assert ReplaceDisallowed([c, ' ', y]) == [' ', ' ', y];
    }
    TrimUntouched([x, ' ', ' ', y]);
  }

  lemma CleanDoubleSpace(x: char, y: char)
    requires Allowed(x) && !IsSpace(x) && Allowed(y) && !IsSpace(y)
    ensures Clean([x, ' ', ' ', y]) == [x, ' ', y]
  {
    CollapseDoubleSpace(x, y);
    var v := [x, ' ', y];
    assert forall k :: 0 <= k < |v| ==> Allowed(v[k]);
    TrimUntouched(v);
  }

  lemma CollapseDoubleSpace(x: char, y: char)
    requires !IsSpace(x) && !IsSpace(y)
    ensures CollapseSpaces([x, ' ', ' ', y]) == [x, ' ', y]
  {
    var t := [' ', ' ', y];
    assert [x, ' ', ' ', y][1..] == t;
    LeadingSpacesTrimmed(y);
    assert CollapseSpaces(t) == " " + CollapseSpaces([y]);
    assert CollapseSpaces([y]) == [y];
  }

  lemma LeadingSpacesTrimmed(y: char)
    requires !IsSpace(y)
    ensures TrimStart([' ', ' ', y]) == [y]
  {
    assert [' ', ' ', y][1..] == [' ', y] && [' ', y][1..] == [y];
    assert LeadingSpaces([y]) == 0;
    assert LeadingSpaces([' ', y]) == 1;
    assert LeadingSpaces([' ', ' ', y]) == 2;
  }

  // ---------------------------------------------------------------------------
  // The handler

  /** The final length check and the success body. */
  function Finish(text: string, f: File): Response {
    if Utf16Length(text) < 10 then Json(400, Failure(EmptyMessage))
    else Json(200, Extracted(text, f.name, f.size))
  }

  /**
   * The request handler. The branches are tried in the order image, TXT,
   * PDF, DOCX; the PDF and DOCX length checks come before the cleanup, the
   * final one after it.
   */
  method Handle(req: Request, ocr: Ocr) returns (resp: Response)
    ensures req.Preflight? ==> resp == CorsOk
    ensures req.BadForm? ==> resp == Json(500, Failure(req.message))
    ensures req.Upload? && req.file.None? ==> resp == Json(400, Failure(NoFileMessage))
    ensures req.Upload? && req.file.Some? ==>
      var f := req.file.value;
      if IsImageFile(f) then
        resp == (if ocr.OcrError? then Json(500, Failure(ocr.message)) else Finish(ocr.text, f))
      else if IsTxt(f) then
        resp == Finish(Clean(f.body), f)
      else if IsPdf(f) then
        resp == (if Utf16Length(PdfText(f.body)) < 50 then Json(400, Failure(PdfMessage))
                 else Finish(Clean(PdfText(f.body)), f))
      else if IsDocx(f) then
        resp == (if Utf16Length(DocxText(f.body)) < 20 then Json(400, Failure(DocxMessage))
                 else Finish(Clean(DocxText(f.body)), f))
      else
        resp == Json(400, Failure(UnsupportedMessage))
    ensures resp.Json? && resp.body.Extracted? ==>
      && resp.status == 200
      && Utf16Length(resp.body.text) >= 10
      && (req.Upload? && req.file.Some? && !IsImageFile(req.file.value) ==> IsCleanText(resp.body.text))
  {
    if req.Preflight? {
      return CorsOk;
    }
    if req.BadForm? {
      return Json(500, Failure(req.message));
    }
    if req.file.None? {
      return Json(400, Failure(NoFileMessage));
    }
    var file := req.file.value;
    var extractedText := "";
    if IsImageFile(file) {
      if ocr.OcrError? {
        return Json(500, Failure(ocr.message));
      }
      extractedText := ocr.text;
    } else if IsTxt(file) {
      extractedText := file.body;
    } else if IsPdf(file) {
      var text := "";
      var textMatches := ParenStrings(file.body, 0);
      if textMatches != [] {
        text := Join(KeptPdfStrings(textMatches), " ");
      }
      var readableText := ReadableRuns(file.body, 0);
      if readableText != [] {
        text := text + " " + Join(readableText, " ");
      }
      assert text == PdfJoined(if textMatches != [] then Join(KeptPdfStrings(textMatches), " ") else "", readableText);
      extractedText := Trim(text);
      assert extractedText == PdfText(file.body);
      if Utf16Length(extractedText) < 50 {
        return Json(400, Failure(PdfMessage));
      }
    } else if IsDocx(file) {
      var textMatches := DocxRuns(file.body, 0);
      if textMatches != [] {
        extractedText := Join(StrippedRuns(textMatches), " ");
      }
      if Utf16Length(extractedText) < 20 {
        return Json(400, Failure(DocxMessage));
      }
    } else {
      return Json(400, Failure(UnsupportedMessage));
    }
    if !IsImageFile(file) {
      CleanIsClean(extractedText);
      extractedText := Clean(extractedText);
    }
    if Utf16Length(extractedText) < 10 {
      return Json(400, Failure(EmptyMessage));
    }
    return Json(200, Extracted(extractedText, file.name, file.size));
  }
}
