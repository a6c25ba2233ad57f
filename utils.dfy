/**
 * `process_raw_response` of utils.py (and its copy in api_client.py): the
 * newline-delimited JSON a scraping job downloads becomes the list of its
 * records, or an error dict when a line is not JSON.
 */
module Utils {
  import opened Wrappers
  import opened Json

  /** `c.isspace()`: the characters `str.strip()` removes. */
  predicate IsSpace(c: char)
  {
    c == ' ' || ('\t' <= c <= '\r') || ('\U{1c}' <= c <= '\U{1f}') || c == '\U{85}' || c == '\U{a0}' ||
    c == '\U{1680}' || ('\U{2000}' <= c <= '\U{200a}') || c == '\U{2028}' || c == '\U{2029}' ||
    c == '\U{202f}' || c == '\U{205f}' || c == '\U{3000}'
  }

  predicate AllSpace(s: string)
  {
    forall i :: 0 <= i < |s| ==> IsSpace(s[i])
  }

  /** `s.lstrip()` */
  function StripLeft(s: string): (r: string)
    ensures |r| <= |s|
  {
    if |s| > 0 && IsSpace(s[0]) then StripLeft(s[1..]) else s
  }

  /** `s.rstrip()` */
  function StripRight(s: string): (r: string)
    ensures |r| <= |s|
  {
    if |s| > 0 && IsSpace(s[|s| - 1]) then StripRight(s[..|s| - 1]) else s
  }

  /** `s.lstrip()` removes a whitespace prefix and stops at the first other character. */
  lemma {:induction false} StripLeftRemovesSpace(s: string)
    ensures var r := StripLeft(s);
            r == s[|s| - |r|..] && AllSpace(s[..|s| - |r|]) && (|r| == 0 || !IsSpace(r[0]))
  {
    if |s| > 0 && IsSpace(s[0]) {
      StripLeftRemovesSpace(s[1..]);
      var r := StripLeft(s[1..]);
      assert s[1..][..|s| - 1 - |r|] == s[1..|s| - |r|];
    }
  }

  /** `s.rstrip()` removes a whitespace suffix and stops at the last other character. */
  lemma {:induction false} StripRightRemovesSpace(s: string)
    ensures var r := StripRight(s);
            r == s[..|r|] && AllSpace(s[|r|..]) && (|r| == 0 || !IsSpace(r[|r| - 1]))
  {
    if |s| > 0 && IsSpace(s[|s| - 1]) {
      StripRightRemovesSpace(s[..|s| - 1]);
      var r := StripRight(s[..|s| - 1]);
      assert s[..|s| - 1][|r|..] == s[|r|..|s| - 1];
      assert forall k :: 0 <= k < |s| - 1 - |r| ==> s[|r|..][k] == s[|r|..|s| - 1][k];
    }
  }

  /** `s.strip()` */
  function Strip(s: string): (r: string)
    ensures |r| <= |s|
  {
    StripRight(StripLeft(s))
  }

  /**
   * `s.strip()` is the substring left once the leading and trailing
   * whitespace is removed; it neither begins nor ends with whitespace.
   */
  lemma StripRemovesSpace(s: string)
    ensures var r := Strip(s);
            (exists i, j :: 0 <= i <= j <= |s| && r == s[i..j] && AllSpace(s[..i]) && AllSpace(s[j..])) &&
            (|r| == 0 || (!IsSpace(r[0]) && !IsSpace(r[|r| - 1])))
  {
    StripIsSubstring(s);
    StripEnds(s);
  }

  lemma StripIsSubstring(s: string)
    ensures exists i, j :: 0 <= i <= j <= |s| && Strip(s) == s[i..j] && AllSpace(s[..i]) && AllSpace(s[j..])
  {
    var l := StripLeft(s);
    var r := StripRight(l);
    StripLeftRemovesSpace(s);
    StripRightRemovesSpace(l);
    var i := |s| - |l|;
    assert r == s[i..i + |r|];
    assert s[i + |r|..] == l[|r|..];
    assert AllSpace(s[..i]) && AllSpace(s[i + |r|..]);
  }

  lemma StripEnds(s: string)
    ensures var r := Strip(s); |r| == 0 || (!IsSpace(r[0]) && !IsSpace(r[|r| - 1]))
  {
    var l := StripLeft(s);
    var r := StripRight(l);
    StripLeftRemovesSpace(s);
    StripRightRemovesSpace(l);
    if |r| > 0 {
      assert r[0] == l[0];
    }
  }

  /** `line.strip()` is falsy exactly for whitespace-only lines. */
  lemma StripEmpty(s: string)
    ensures Strip(s) == [] <==> AllSpace(s)
  {
    if Strip(s) == [] {
      StripEmptyAllSpace(s);
    } else {
      StripNonEmptyNotSpace(s);
    }
  }

  lemma StripEmptyAllSpace(s: string)
    requires Strip(s) == []
    ensures AllSpace(s)
  {
    var l := StripLeft(s);
    StripLeftRemovesSpace(s);
    StripRightRemovesSpace(l);
    assert AllSpace(l) by {
      assert l[0..] == l;
    }
    assert |l| == 0;
    assert s[..|s|] == s;
  }

  lemma StripNonEmptyNotSpace(s: string)
    requires Strip(s) != []
    ensures !AllSpace(s)
  {
    var l := StripLeft(s);
    StripLeftRemovesSpace(s);
    StripEnds(s);
    StripRightRemovesSpace(l);
    var i := |s| - |l|;
    assert Strip(s)[0] == l[0] == s[i];
  }

  /** The pieces of a text one character longer: a newline opens a new piece. */
  function AddChar(lines: seq<string>, c: char): (r: seq<string>)
    requires |lines| >= 1
    ensures |r| >= 1
  {
    if c == '\n' then lines + [""]
    else lines[..|lines| - 1] + [lines[|lines| - 1] + [c]]
  }

  /** `s.split("\n")`: the pieces between newlines; the empty string gives `[""]`. */
  function Split(s: string): (lines: seq<string>)
    ensures |lines| >= 1
  {
    if |s| == 0 then [""] else AddChar(Split(s[..|s| - 1]), s[|s| - 1])
  }

  lemma AddCharConcat(a: seq<string>, p: seq<string>, c: char)
    requires |p| >= 1
    ensures AddChar(a + p, c) == a + AddChar(p, c)
  {
    if c != '\n' {
      assert (a + p)[..|a + p| - 1] == a + p[..|p| - 1];
    }
  }

  /** `"\n".join(lines)` */
  function JoinLines(lines: seq<string>): string
  {
    if |lines| == 0 then []
    else if |lines| == 1 then lines[0]
    else JoinLines(lines[..|lines| - 1]) + "\n" + lines[|lines| - 1]
  }

  /** One more character of text is one more character of the joined pieces. */
  lemma JoinAddChar(lines: seq<string>, c: char)
    requires |lines| >= 1
    ensures JoinLines(AddChar(lines, c)) == JoinLines(lines) + [c]
  {
    var ls := AddChar(lines, c);
    if c == '\n' {
      assert ls[..|ls| - 1] == lines;
    } else {
      var init := lines[..|lines| - 1];
      var last := lines[|lines| - 1];
      if |lines| > 1 {
        assert ls[..|ls| - 1] == init;
        assert JoinLines(lines) == JoinLines(init) + "\n" + last;
      }
    }
  }

  /** Joining the pieces back with newlines gives the text. */
  lemma {:induction false} SplitJoin(s: string)
    ensures JoinLines(Split(s)) == s
  {
    if |s| > 0 {
      var t := s[..|s| - 1];
      SplitJoin(t);
      JoinAddChar(Split(t), s[|s| - 1]);
      assert s == t + [s[|s| - 1]];
    }
  }

  /** No piece holds a newline. */
  lemma {:induction false} SplitNoNewline(s: string)
    ensures forall k :: 0 <= k < |Split(s)| ==> '\n' !in Split(s)[k]
  {
    if |s| > 0 {
      var t := s[..|s| - 1];
      var c := s[|s| - 1];
      SplitNoNewline(t);
      var prev := Split(t);
      if c != '\n' {
        var ls := Split(s);
        forall k | 0 <= k < |ls|
          ensures '\n' !in ls[k]
        {
          if k < |prev| - 1 { assert ls[k] == prev[k]; }
          else { assert ls[k] == prev[|prev| - 1] + [c]; }
        }
      }
    }
  }

  /** The pieces `if line.strip()` keeps, in order. */
  function NonBlank(lines: seq<string>): (kept: seq<string>)
    ensures |kept| <= |lines|
    ensures forall k :: 0 <= k < |kept| ==> !AllSpace(kept[k]) && kept[k] in lines
  {
    if |lines| == 0 then []
    else
      var prev := NonBlank(lines[..|lines| - 1]);
      var line := lines[|lines| - 1];
      StripEmpty(line);
      if Strip(line) != [] then prev + [line] else prev
  }

  /** The lines `process_raw_response` parses. */
  function KeptLines(raw: string): (lines: seq<string>)
    ensures forall k :: 0 <= k < |lines| ==> !AllSpace(lines[k])
  {
    NonBlank(Split(Strip(raw)))
  }

  /** `[json.loads(line) for line in lines]`: the records, or the first exception. */
  function ParseAll(lines: seq<string>, parse: Parser): (r: Result<seq<Json>>)
    ensures r.Ok? ==> |r.value| == |lines|
  {
    if |lines| == 0 then Ok([])
    else
      match ParseAll(lines[..|lines| - 1], parse)
      case Raise(e) => Raise(e)
      case Ok(records) =>
        match parse(lines[|lines| - 1])
        case Raise(e) => Raise(e)
        case Ok(j) => Ok(records + [j])
  }

  const DECODE_FAILED: string := "Failed to decode JSON"

  /** `{"error": message, "details": str(error)}` */
  function ErrorDict(message: string, details: string): (j: Json)
    ensures j.JObject? && !IsList(j)
  {
    StringObject([("error", message), ("details", details)])
  }

  /**
   * `process_raw_response`: the list of records, or the error dict when a
   * line raises JSONDecodeError; any other exception propagates.
   */
  function ProcessRawResponse(raw: string, parse: Parser): (r: Result<Json>)
    ensures r.Raise? ==> r.exception.kind != JSONDecodeError
    ensures r.Ok? ==> IsList(r.value) || r.value.JObject?
  {
    match ParseAll(KeptLines(raw), parse)
    case Ok(records) => Ok(JArray(records))
    case Raise(e) => if e.kind == JSONDecodeError then Ok(ErrorDict(DECODE_FAILED, e.message)) else Raise(e)
  }

  /** The records come out one per line, in order, iff every line parses. */
  lemma {:induction false} ParseAllOk(lines: seq<string>, parse: Parser)
    ensures ParseAll(lines, parse).Ok? <==> forall k :: 0 <= k < |lines| ==> parse(lines[k]).Ok?
    ensures ParseAll(lines, parse).Ok? ==>
              |ParseAll(lines, parse).value| == |lines| &&
              forall k :: 0 <= k < |lines| ==> ParseAll(lines, parse).value[k] == parse(lines[k]).value
  {
    if |lines| > 0 {
      var n := |lines| - 1;
      ParseAllOk(lines[..n], parse);
      if ParseAll(lines, parse).Ok? {
        forall k | 0 <= k < n
          ensures ParseAll(lines, parse).value[k] == parse(lines[k]).value
        {
          assert lines[..n][k] == lines[k];
        }
      }
    }
  }

  /** The exception ParseAll reports is that of the first line that raises. */
  lemma {:induction false} ParseAllFirstRaise(lines: seq<string>, parse: Parser)
    requires ParseAll(lines, parse).Raise?
    ensures exists k :: 0 <= k < |lines| && parse(lines[k]) == Raise(ParseAll(lines, parse).exception) &&
                        forall m :: 0 <= m < k ==> parse(lines[m]).Ok?
  {
    var n := |lines| - 1;
    var e := ParseAll(lines, parse).exception;
    if ParseAll(lines[..n], parse).Raise? {
      ParseAllFirstRaise(lines[..n], parse);
      var k :| 0 <= k < n && parse(lines[..n][k]) == Raise(e) && forall m :: 0 <= m < k ==> parse(lines[..n][m]).Ok?;
      assert lines[..n][k] == lines[k];
      forall m | 0 <= m < k
        ensures parse(lines[m]).Ok?
      {
        assert lines[..n][m] == lines[m];
      }
    } else {
      ParseAllOk(lines[..n], parse);
      forall m | 0 <= m < n
        ensures parse(lines[m]).Ok?
      {
        assert lines[..n][m] == lines[m];
      }
    }
  }

  /**
   * On success the result is the list holding, in order, the parse of each
   * kept line; it is a list exactly when every kept line parses.
   */
  lemma ProcessRawResponseRecords(raw: string, parse: Parser)
    ensures var r := ProcessRawResponse(raw, parse);
            (r.Ok? && IsList(r.value)) <==> forall k :: 0 <= k < |KeptLines(raw)| ==> parse(KeptLines(raw)[k]).Ok?
    ensures var r := ProcessRawResponse(raw, parse);
            r.Ok? && IsList(r.value) ==>
              |r.value.items| == |KeptLines(raw)| &&
              forall k :: 0 <= k < |KeptLines(raw)| ==> r.value.items[k] == parse(KeptLines(raw)[k]).value
  {
    ParseAllOk(KeptLines(raw), parse);
  }

  /**
   * A line that fails with JSONDecodeError, after lines that all parse,
   * turns the whole result into the error dict: no partial list comes back.
   */
  lemma ProcessRawResponseDecodeError(raw: string, parse: Parser, k: nat, e: Exception)
    requires k < |KeptLines(raw)| && parse(KeptLines(raw)[k]) == Raise(e) && e.kind == JSONDecodeError
    requires forall m :: 0 <= m < k ==> parse(KeptLines(raw)[m]).Ok?
    ensures ProcessRawResponse(raw, parse) == Ok(ErrorDict(DECODE_FAILED, e.message))
  {
    var lines := KeptLines(raw);
    ParseAllOk(lines, parse);
    ParseAllFirstRaise(lines, parse);
    var j :| 0 <= j < |lines| && parse(lines[j]) == Raise(ParseAll(lines, parse).exception) &&
             forall m :: 0 <= m < j ==> parse(lines[m]).Ok?;
    assert j == k;
  }

  /** Empty or whitespace-only input gives the empty list. */
  lemma BlankInput(raw: string, parse: Parser)
    requires AllSpace(raw)
    ensures ProcessRawResponse(raw, parse) == Ok(JArray([]))
  {
    StripEmpty(raw);
    StripEmpty("");
    assert Split(Strip(raw)) == [""];
    assert NonBlank([""]) == [];
  }

  /** Leading whitespace of a concatenation. */
  lemma {:induction false} StripLeftConcat(x: string, y: string)
    ensures StripLeft(x + y) == if AllSpace(x) then StripLeft(y) else StripLeft(x) + y
  {
    if |x| == 0 {
      assert x + y == y;
    } else {
      assert (x + y)[0] == x[0] && (x + y)[1..] == x[1..] + y;
      if IsSpace(x[0]) {
        StripLeftConcat(x[1..], y);
        assert AllSpace(x) <==> AllSpace(x[1..]) by {
          if AllSpace(x[1..]) {
            forall k | 0 <= k < |x| ensures IsSpace(x[k]) {
              if k > 0 { assert x[k] == x[1..][k - 1]; }
            }
          }
          if AllSpace(x) {
            forall k | 0 <= k < |x| - 1 ensures IsSpace(x[1..][k]) {
              assert x[1..][k] == x[k + 1];
            }
          }
        }
      }
    }
  }

  /** Trailing whitespace of a concatenation. */
  lemma {:induction false} StripRightConcat(x: string, y: string)
    ensures StripRight(x + y) == if AllSpace(y) then StripRight(x) else x + StripRight(y)
  {
    if |y| == 0 {
      assert x + y == x;
    } else {
      var n := |y| - 1;
      assert (x + y)[|x + y| - 1] == y[n] && (x + y)[..|x + y| - 1] == x + y[..n];
      if IsSpace(y[n]) {
        StripRightConcat(x, y[..n]);
        assert AllSpace(y) <==> AllSpace(y[..n]) by {
          if AllSpace(y[..n]) {
            forall k | 0 <= k < |y| ensures IsSpace(y[k]) {
              if k < n { assert y[k] == y[..n][k]; }
            }
          }
        }
      }
    }
  }

  /** A newline separates the pieces of the text before it from those after it. */
  lemma {:induction false} SplitAcross(x: string, y: string)
    ensures Split(x + "\n" + y) == Split(x) + Split(y)
  {
    var z := x + "\n" + y;
    if |y| == 0 {
      assert z[..|z| - 1] == x && z[|z| - 1] == '\n';
    } else {
      var n := |y| - 1;
      LastOfJoin(x, y);
      SplitAcross(x, y[..n]);
      AddCharConcat(Split(x), Split(y[..n]), y[n]);
      assert Split(z) == AddChar(Split(x + "\n" + y[..n]), y[n]);
    }
  }

  lemma LastOfJoin(x: string, y: string)
    requires |y| > 0
    ensures var z := x + "\n" + y;
            z[..|z| - 1] == x + "\n" + y[..|y| - 1] && z[|z| - 1] == y[|y| - 1]
  {
  }

  /** A text without newline is one piece. */
  lemma {:induction false} SplitOneLine(w: string)
    requires '\n' !in w
    ensures Split(w) == [w]
  {
    if |w| > 0 {
      assert w[|w| - 1] in w;
      assert forall k :: 0 <= k < |w| - 1 ==> w[..|w| - 1][k] == w[k];
      SplitOneLine(w[..|w| - 1]);
      assert w[..|w| - 1] + [w[|w| - 1]] == w;
    }
  }

  lemma {:induction false} NonBlankConcat(a: seq<string>, b: seq<string>)
    ensures NonBlank(a + b) == NonBlank(a) + NonBlank(b)
  {
    if |b| == 0 {
      assert a + b == a;
    } else {
      var n := |b| - 1;
      assert (a + b)[..|a + b| - 1] == a + b[..n] && (a + b)[|a + b| - 1] == b[n];
      NonBlankConcat(a, b[..n]);
    }
  }

  lemma NewlinesAroundSpace(w: string)
    requires AllSpace(w)
    ensures AllSpace("\n" + w + "\n") && AllSpace("\n")
  {
    var mid := "\n" + w + "\n";
    forall k | 0 <= k < |mid| ensures IsSpace(mid[k]) {
      if 0 < k < |mid| - 1 { assert mid[k] == w[k - 1]; }
    }
  }

  /** `lstrip` of whitespace followed by more text skips to that text. */
  lemma StripLeftSkips(x: string, y: string)
    requires AllSpace(x)
    ensures StripLeft(x + y) == StripLeft(y)
  {
    StripLeftConcat(x, y);
  }

  /** `lstrip` of text that is not all whitespace leaves what follows it alone. */
  lemma StripLeftStops(x: string, y: string)
    requires !AllSpace(x)
    ensures StripLeft(x + y) == StripLeft(x) + y
  {
    StripLeftConcat(x, y);
  }

  lemma StripRightSkips(x: string, y: string)
    requires AllSpace(y)
    ensures StripRight(x + y) == StripRight(x)
  {
    StripRightConcat(x, y);
  }

  lemma StripRightStops(x: string, y: string)
    requires !AllSpace(y)
    ensures StripRight(x + y) == x + StripRight(y)
  {
    StripRightConcat(x, y);
  }

  /** Where `lstrip` stops, with and without the inserted line. */
  lemma StripLeftInsert(a: string, w: string, b: string)
    requires AllSpace(w)
    ensures AllSpace(a) ==> StripLeft(a + "\n" + w + "\n" + b) == StripLeft(a + "\n" + b)
    ensures !AllSpace(a) ==> StripLeft(a + "\n" + w + "\n" + b) == StripLeft(a) + "\n" + w + "\n" + b &&
                             StripLeft(a + "\n" + b) == StripLeft(a) + "\n" + b
  {
    if AllSpace(a) {
      StripLeftInsertBlank(a, w, b);
    } else {
      StripLeftInsertText(a, w, b);
    }
  }

  lemma StripLeftInsertBlank(a: string, w: string, b: string)
    requires AllSpace(w) && AllSpace(a)
    ensures StripLeft(a + "\n" + w + "\n" + b) == StripLeft(a + "\n" + b)
  {
    var mid := "\n" + w + "\n";
    NewlinesAroundSpace(w);
    assert a + "\n" + w + "\n" + b == a + (mid + b);
    assert a + "\n" + b == a + ("\n" + b);
    StripLeftSkips(a, mid + b);
    StripLeftSkips(a, "\n" + b);
    StripLeftSkips(mid, b);
    StripLeftSkips("\n", b);
  }

  lemma StripLeftInsertText(a: string, w: string, b: string)
    requires !AllSpace(a)
    ensures StripLeft(a + "\n" + w + "\n" + b) == StripLeft(a) + "\n" + w + "\n" + b
    ensures StripLeft(a + "\n" + b) == StripLeft(a) + "\n" + b
  {
    var mid := "\n" + w + "\n";
    assert a + "\n" + w + "\n" + b == a + (mid + b);
    assert a + "\n" + b == a + ("\n" + b);
    StripLeftStops(a, mid + b);
    StripLeftStops(a, "\n" + b);
    assert StripLeft(a) + (mid + b) == StripLeft(a) + "\n" + w + "\n" + b;
    assert StripLeft(a) + ("\n" + b) == StripLeft(a) + "\n" + b;
  }

  /** Where `rstrip` stops, with and without the inserted line. */
  lemma StripRightInsert(l: string, w: string, b: string)
    requires AllSpace(w)
    ensures AllSpace(b) ==> StripRight(l + "\n" + w + "\n" + b) == StripRight(l + "\n" + b)
    ensures !AllSpace(b) ==> StripRight(l + "\n" + w + "\n" + b) == l + "\n" + w + "\n" + StripRight(b) &&
                             StripRight(l + "\n" + b) == l + "\n" + StripRight(b)
  {
    if AllSpace(b) {
      StripRightInsertBlank(l, w, b);
    } else {
      StripRightInsertText(l, w, b);
    }
  }

  lemma StripRightInsertBlank(l: string, w: string, b: string)
    requires AllSpace(w) && AllSpace(b)
    ensures StripRight(l + "\n" + w + "\n" + b) == StripRight(l + "\n" + b)
  {
    var mid := "\n" + w + "\n";
    NewlinesAroundSpace(w);
    AllSpaceConcat(mid, b);
    AllSpaceConcat("\n", b);
    assert l + "\n" + w + "\n" + b == l + (mid + b);
    assert l + "\n" + b == l + ("\n" + b);
    StripRightSkips(l, mid + b);
    StripRightSkips(l, "\n" + b);
  }

  lemma StripRightInsertText(l: string, w: string, b: string)
    requires !AllSpace(b)
    ensures StripRight(l + "\n" + w + "\n" + b) == l + "\n" + w + "\n" + StripRight(b)
    ensures StripRight(l + "\n" + b) == l + "\n" + StripRight(b)
  {
    var mid := "\n" + w + "\n";
    assert l + "\n" + w + "\n" + b == (l + mid) + b;
    assert l + "\n" + b == (l + "\n") + b;
    StripRightStops(l + mid, b);
    StripRightStops(l + "\n", b);
  }

  lemma AllSpaceConcat(x: string, y: string)
    requires AllSpace(x) && AllSpace(y)
    ensures AllSpace(x + y)
  {
    forall k | 0 <= k < |x + y| ensures IsSpace((x + y)[k]) {
      if k < |x| { assert (x + y)[k] == x[k]; } else { assert (x + y)[k] == y[k - |x|]; }
    }
  }

  /** The kept pieces ignore a whitespace line between two parts. */
  lemma NonBlankInsert(l: string, w: string, r: string)
    requires AllSpace(w) && '\n' !in w
    ensures NonBlank(Split(l + "\n" + w + "\n" + r)) == NonBlank(Split(l + "\n" + r))
  {
    assert l + "\n" + w + "\n" + r == l + "\n" + (w + "\n" + r);
    SplitAcross(l, w + "\n" + r);
    SplitAcross(w, r);
    SplitAcross(l, r);
    SplitOneLine(w);
    StripEmpty(w);
    assert NonBlank([w]) == [];
    NonBlankConcat(Split(l), [w] + Split(r));
    NonBlankConcat([w], Split(r));
    NonBlankConcat(Split(l), Split(r));
  }

  /**
   * Inserting a whitespace-only line between two parts of the input changes
   * nothing: the same lines are parsed, so the result is the same.
   */
  lemma BlankLineIgnored(a: string, w: string, b: string, parse: Parser)
    requires AllSpace(w) && '\n' !in w
    ensures ProcessRawResponse(a + "\n" + w + "\n" + b, parse) == ProcessRawResponse(a + "\n" + b, parse)
  {
    StripLeftInsert(a, w, b);
    if !AllSpace(a) {
      var l := StripLeft(a);
      StripRightInsert(l, w, b);
      if !AllSpace(b) {
        NonBlankInsert(l, w, StripRight(b));
      }
    }
  }
}
