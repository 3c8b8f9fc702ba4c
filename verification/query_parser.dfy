/**
 * SyntaxQueryParser: turning the text a completion returns into the list of
 * syntax elements. JSON decoding is an external partial function (None when
 * the text is not JSON); the fallback line splitter is modelled exactly.
 */
module QueryParser {
  import opened Wrappers
  import opened Exceptions
  import opened PyStr

  /** The characters of the bullet marker `"- "` stripped from each line. */
  predicate IsBullet(c: char) {
    c == '-' || c == ' '
  }

  /**
   * Every character is whitespace (true of the empty string): a blank line,
   * whose `strip()` is empty (see BlankIffStripEmpty); the fallback skips it.
   */
  predicate AllSpace(s: string) {
    forall p :: 0 <= p < |s| ==> IsSpace(s[p])
  }

  /** No whitespace at either end. */
  predicate Trimmed(s: string) {
    |s| == 0 || (!IsSpace(s[0]) && !IsSpace(s[|s| - 1]))
  }

  lemma BlankIffStripEmpty(line: string)
    ensures AllSpace(line) <==> |Strip(line, IsSpace)| == 0
  {
  }

  /** `line.strip("- ").strip()`. */
  function CleanLine(line: string): (r: string)
    ensures Trimmed(r)
    ensures forall c :: c in r ==> c in line
  {
    Strip(Strip(line, IsBullet), IsSpace)
  }

  /** The cleaned forms of the non-blank lines, in order. */
  function KeepLines(lines: seq<string>): (r: seq<string>)
    ensures |r| <= |lines|
    ensures |r| == 0 <==> forall j :: 0 <= j < |lines| ==> AllSpace(lines[j])
  {
    if |lines| == 0 then []
    else
      var rest := KeepLines(lines[1..]);
      if AllSpace(lines[0]) then rest else [CleanLine(lines[0])] + rest
  }

  /** KeepLines works line by line: it distributes over concatenation. */
  lemma {:induction false} KeepLinesAppend(a: seq<string>, b: seq<string>)
    ensures KeepLines(a + b) == KeepLines(a) + KeepLines(b)
  {
    if |a| == 0 {
      assert a + b == b;
    } else {
      assert (a + b)[0] == a[0];
      assert (a + b)[1..] == a[1..] + b;
      KeepLinesAppend(a[1..], b);
    }
  }

  /** Line `j` is non-blank and cleans to `o`. */
  predicate KeptAt(lines: seq<string>, j: int, o: string) {
    0 <= j < |lines| && !AllSpace(lines[j]) && o == CleanLine(lines[j])
  }

  /** One step of KeepLines: the first line contributes its cleaned form unless it is blank. */
  lemma KeepLinesCons(lines: seq<string>)
    requires |lines| > 0
    ensures KeepLines(lines) == (if AllSpace(lines[0]) then [] else [CleanLine(lines[0])]) + KeepLines(lines[1..])
  {
  }

  /** A non-blank first line contributes its cleaned form in front. */
  lemma KeepLinesNonBlank(line: string, rest: seq<string>)
    requires !AllSpace(line)
    ensures KeepLines([line] + rest) == [CleanLine(line)] + KeepLines(rest)
  {
    assert ([line] + rest)[1..] == rest;
  }

  lemma KeepBulletLine(w: string, tail: seq<string>, rest: seq<string>)
    requires !AllSpace("- " + w) && CleanLine("- " + w) == w
    requires KeepLines(tail) == rest
    ensures KeepLines(["- " + w] + tail) == [w] + rest
  {
    KeepLinesNonBlank("- " + w, tail);
  }

  /** Every non-blank line's cleaned form is kept. */
  lemma {:induction false} KeepLinesKeeps(lines: seq<string>, o: string, j: int)
    requires KeptAt(lines, j, o)
    ensures o in KeepLines(lines)
  {
    KeepLinesCons(lines);
    if j > 0 {
      assert lines[1..][j - 1] == lines[j];
      KeepLinesKeeps(lines[1..], o, j - 1);
    }
  }

  /** Nothing else is kept: each kept string is the cleaned form of some non-blank line. */
  lemma {:induction false} KeepLinesOnlyCleaned(lines: seq<string>, o: string)
    requires o in KeepLines(lines)
    ensures exists j :: KeptAt(lines, j, o)
  {
    KeepLinesCons(lines);
    if o in KeepLines(lines[1..]) {
      KeepLinesOnlyCleaned(lines[1..], o);
      var j :| KeptAt(lines[1..], j, o);
      assert lines[j + 1] == lines[1..][j];
      assert KeptAt(lines, j + 1, o);
    } else {
      assert KeptAt(lines, 0, o);
    }
  }

  /** Each kept line is cleaned: trimmed, and free of newlines when the input lines are. */
  lemma KeepLinesClean(lines: seq<string>)
    ensures forall j :: 0 <= j < |KeepLines(lines)| ==> Trimmed(KeepLines(lines)[j])
    ensures (forall j :: 0 <= j < |lines| ==> '\n' !in lines[j]) ==>
              forall j :: 0 <= j < |KeepLines(lines)| ==> '\n' !in KeepLines(lines)[j]
  {
    var r := KeepLines(lines);
    forall j | 0 <= j < |r|
      ensures Trimmed(r[j])
      ensures (forall i :: 0 <= i < |lines| ==> '\n' !in lines[i]) ==> '\n' !in r[j]
    {
      KeepLinesOnlyCleaned(lines, r[j]);
      var i :| KeptAt(lines, i, r[j]);
      assert r[j] == CleanLine(lines[i]);
    }
  }

  /** The fallback of `_clean_response`: split on newlines, keep and clean the non-blank lines. */
  function FallbackLines(text: string): (r: seq<string>)
    ensures |r| <= Count(text, '\n') + 1
    ensures forall j :: 0 <= j < |r| ==> '\n' !in r[j] && Trimmed(r[j])
  {
    SplitCount(text, '\n');
    KeepLinesClean(Split(text, '\n'));
    KeepLines(Split(text, '\n'))
  }

  /** What `_clean_response` returns: the decoded JSON value, or the fallback lines. */
  datatype Cleaned<J> = Decoded(value: J) | Fallback(lines: seq<string>)

  /**
   * `_clean_response`: the decoded value when the text is JSON, unchecked;
   * otherwise the fallback lines. `decode` models `json.loads` with only its
   * JSONDecodeError, as `None`; its other exceptions are not modelled.
   */
  function CleanResponse<J>(decode: string -> Option<J>, response: string): (r: Cleaned<J>)
    ensures decode(response).Some? ==> r == Decoded(decode(response).value)
    ensures decode(response).None? ==> r.Fallback? && |r.lines| <= Count(response, '\n') + 1
    ensures decode(response).None? ==> forall j :: 0 <= j < |r.lines| ==> '\n' !in r.lines[j] && Trimmed(r.lines[j])
    ensures decode(response).None? ==> r == Fallback(FallbackLines(response))
  {
    match decode(response)
    case Some(v) => Decoded(v)
    case None => Fallback(FallbackLines(response))
  }

  /**
   * `parse`: the cleaned completion for the query. The completion call, with
   * its fixed instructions around the query, is external and may raise: the
   * chat client has no handler around it, so its exception ends `parse`.
   * `len` on a decoded JSON value is external too: `lenFailure(v)` is the
   * TypeError message when `v` has no length (a number, say), which the
   * logging call after cleaning raises.
   */
  function Parse<J>(complete: string -> Result<string, Error>, decode: string -> Option<J>,
                    lenFailure: J -> Option<string>, query: string): (r: Result<Cleaned<J>, Error>)
    ensures complete(query).Failure? ==> r == Failure(complete(query).error)
    ensures complete(query).Success? ==>
      var response := complete(query).value;
      (r.Failure? <==> decode(response).Some? && lenFailure(decode(response).value).Some?)
      && (r.Failure? ==> r.error == Raised(lenFailure(decode(response).value).value))
      && (r.Success? ==> r.value == CleanResponse(decode, response))
  {
    match complete(query)
    case Failure(e) => Failure(e)
    case Success(response) =>
      var cleaned := CleanResponse(decode, response);
      match cleaned
      case Decoded(v) =>
        (match lenFailure(v)
         case Some(message) => Failure(Raised(message))
         case None => Success(cleaned))
      case Fallback(_) => Success(cleaned)
  }

  /**
   * A completion that is not JSON is always parsed, with `json.loads`
   * raising only JSONDecodeError: the fallback never raises.
   */
  lemma ParseFallbackNeverFails<J>(complete: string -> Result<string, Error>, decode: string -> Option<J>,
                                   lenFailure: J -> Option<string>, query: string, response: string)
    requires complete(query) == Success(response)
    requires decode(response).None?
    ensures Parse(complete, decode, lenFailure, query) == Success(Fallback(FallbackLines(response)))
  {
  }

  lemma AllSpaceConcat(a: string, b: string)
    ensures AllSpace(a + b) <==> AllSpace(a) && AllSpace(b)
  {
    if AllSpace(a) && AllSpace(b) {
      forall p | 0 <= p < |a + b|
        ensures IsSpace((a + b)[p])
      {
        if p >= |a| {
          assert (a + b)[p] == b[p - |a|];
        }
      }
    }
    if AllSpace(a + b) {
      forall p | 0 <= p < |a|
        ensures IsSpace(a[p])
      {
        assert (a + b)[p] == a[p];
      }
      forall p | 0 <= p < |b|
        ensures IsSpace(b[p])
      {
        assert (a + b)[|a| + p] == b[p];
      }
    }
  }

  /** A join of lines is all whitespace exactly when every line is (the newline is whitespace). */
  lemma {:induction false} JoinAllSpace(parts: seq<string>)
    requires |parts| >= 1
    ensures AllSpace(Join(parts, '\n')) <==> forall j :: 0 <= j < |parts| ==> AllSpace(parts[j])
  {
    if |parts| > 1 {
      JoinAllSpace(parts[1..]);
      var tail := Join(parts[1..], '\n');
      AllSpaceConcat(parts[0] + ['\n'], tail);
      AllSpaceConcat(parts[0], ['\n']);
      assert forall j :: 1 <= j < |parts| ==> parts[j] == parts[1..][j - 1];
    }
  }

  /** The fallback yields nothing exactly when the completion is empty or all whitespace. */
  lemma FallbackEmptyIffBlank(text: string)
    ensures FallbackLines(text) == [] <==> AllSpace(text)
  {
    JoinSplit(text, '\n');
    JoinAllSpace(Split(text, '\n'));
  }

  /** A line of dashes and spaces is kept, and becomes the empty string. */
  lemma DashLineYieldsEmpty(line: string)
    requires forall p :: 0 <= p < |line| ==> IsBullet(line[p])
    requires '-' in line
    ensures !AllSpace(line)
    ensures CleanLine(line) == ""
  {
  }

  /** Lines joined with newlines come back as exactly the kept forms of those lines. */
  lemma FallbackOfJoin(lines: seq<string>)
    requires |lines| >= 1
    requires forall j :: 0 <= j < |lines| ==> '\n' !in lines[j]
    ensures FallbackLines(Join(lines, '\n')) == KeepLines(lines)
  {
    SplitJoin(lines, '\n');
  }

  /** `"---"` on its own yields `[""]`. */
  lemma DashesExample()
    ensures FallbackLines("---") == [""]
  {
    var line: string := "---";
    var lines: seq<string> := [line];
    assert line[0] == '-' && line[1] == '-' && line[2] == '-';
    assert Join(lines, '\n') == line;
    FallbackOfJoin(lines);
    DashLineYieldsEmpty(line);
    KeepLinesCons(lines);
    assert |lines[1..]| == 0;
  }

  /** A `"- "` bullet before text that starts and ends with neither a bullet character nor whitespace is removed. */
  lemma BulletLine(text: string)
    requires |text| > 0
    requires !IsBullet(text[0]) && !IsSpace(text[0])
    requires !IsBullet(text[|text| - 1]) && !IsSpace(text[|text| - 1])
    ensures !AllSpace("- " + text)
    ensures CleanLine("- " + text) == text
  {
    var line := "- " + text;
    StripCharacterised(line, IsBullet, 2, |line|);
    assert line[2..] == text;
    StripCharacterised(text, IsSpace, 0, |text|);
    assert text[0..|text|] == text;
    assert line[|line| - 1] == text[|text| - 1];
  }

  /** Text that survives the cleaning untouched: non-empty, one line, and neither end a bullet character or whitespace. */
  predicate PlainItem(w: string) {
    && |w| > 0
    && '\n' !in w
    && !IsBullet(w[0]) && !IsSpace(w[0])
    && !IsBullet(w[|w| - 1]) && !IsSpace(w[|w| - 1])
  }

  /** Each item as a `"- "` bullet line. */
  function Bulleted(items: seq<string>): (r: seq<string>)
    ensures |r| == |items|
  {
    if |items| == 0 then [] else ["- " + items[0]] + Bulleted(items[1..])
  }

  /** Line `j` of the bullet list is item `j` behind `"- "`. */
  lemma {:induction false} BulletedAt(items: seq<string>, j: nat)
    requires j < |items|
    ensures Bulleted(items)[j] == "- " + items[j]
  {
    if j > 0 {
      BulletedAt(items[1..], j - 1);
      assert items[1..][j - 1] == items[j];
    }
  }

  /** A bullet line that cleans to its item, in front of lines that clean to `rest`, gives the item then `rest`. */
  lemma KeepBulletedStep(items: seq<string>)
    requires |items| > 0
    requires !AllSpace("- " + items[0]) && CleanLine("- " + items[0]) == items[0]
    requires KeepLines(Bulleted(items[1..])) == items[1..]
    ensures KeepLines(Bulleted(items)) == items
  {
    KeepBulletLine(items[0], Bulleted(items[1..]), items[1..]);
    assert items == [items[0]] + items[1..];
  }

  lemma PlainTail(items: seq<string>)
    requires |items| > 0
    requires forall j :: 0 <= j < |items| ==> PlainItem(items[j])
    ensures forall j :: 0 <= j < |items[1..]| ==> PlainItem(items[1..][j])
  {
    assert forall j :: 0 <= j < |items[1..]| ==> items[1..][j] == items[j + 1];
  }

  lemma PlainHead(items: seq<string>)
    requires |items| > 0
    requires forall j :: 0 <= j < |items| ==> PlainItem(items[j])
    ensures !AllSpace("- " + items[0]) && CleanLine("- " + items[0]) == items[0]
  {
    BulletLine(items[0]);
  }

  /** The bullet lines of plain items clean back to the items. */
  lemma {:induction false} KeepBulleted(items: seq<string>)
    requires forall j :: 0 <= j < |items| ==> PlainItem(items[j])
    ensures KeepLines(Bulleted(items)) == items
  {
    if |items| > 0 {
      PlainTail(items);
      KeepBulleted(items[1..]);
      PlainHead(items);
      KeepBulletedStep(items);
    }
  }

  /** A bullet list of plain items, with its final empty line, has no newline inside any line. */
  lemma BulletLinesOneLine(items: seq<string>)
    requires forall j :: 0 <= j < |items| ==> PlainItem(items[j])
    ensures forall j :: 0 <= j < |Bulleted(items) + [""]| ==> '\n' !in (Bulleted(items) + [""])[j]
  {
    var lines := Bulleted(items) + [""];
    forall j | 0 <= j < |lines|
      ensures '\n' !in lines[j]
    {
      if j < |items| {
        BulletedAt(items, j);
        assert lines[j] == "- " + items[j];
      }
    }
  }

  /** A trailing empty line adds nothing to the kept lines. */
  lemma KeepLinesBlankLast(lines: seq<string>)
    ensures KeepLines(lines + [""]) == KeepLines(lines)
  {
    KeepLinesAppend(lines, [""]);
    KeepLinesCons([""]);
    assert |[""][1..]| == 0;
  }

  /** A completion that is a bullet list of plain items, one per line, parses back to the items. */
  lemma BulletListRoundTrip(items: seq<string>)
    requires forall j :: 0 <= j < |items| ==> PlainItem(items[j])
    ensures FallbackLines(Join(Bulleted(items) + [""], '\n')) == items
  {
    BulletLinesOneLine(items);
    FallbackOfJoin(Bulleted(items) + [""]);
    KeepLinesBlankLast(Bulleted(items));
    KeepBulleted(items);
  }

  lemma ExampleItemsPlain(items: seq<string>)
    requires items == ["file handling", "CSV parsing"]
    ensures forall j :: 0 <= j < |items| ==> PlainItem(items[j])
  {
    var a := items[0];
    var b := items[1];
    assert a[0] == 'f' && a[|a| - 1] == 'g' && '\n' !in a;
    assert b[0] == 'C' && b[|b| - 1] == 'g' && '\n' !in b;
    assert PlainItem(a) && PlainItem(b);
  }

  lemma ExampleText(text: string, items: seq<string>)
    requires text == "- file handling\n- CSV parsing\n"
    requires items == ["file handling", "CSV parsing"]
    ensures Join(Bulleted(items) + [""], '\n') == text
  {
    var b := Bulleted(items);
    BulletedAt(items, 0);
    BulletedAt(items, 1);
    assert b[0] == "- file handling";
    assert b[1] == "- CSV parsing";
    assert b + [""] == ["- file handling", "- CSV parsing", ""];
    assert Join(["- file handling", "- CSV parsing", ""], '\n') == "- file handling\n- CSV parsing\n";
  }

  /** `"- file handling\n- CSV parsing\n"` yields `["file handling", "CSV parsing"]`. */
  lemma BulletListExample(text: string, items: seq<string>)
    requires text == "- file handling\n- CSV parsing\n"
    requires items == ["file handling", "CSV parsing"]
    ensures FallbackLines(text) == items
  {
    ExampleItemsPlain(items);
    ExampleText(text, items);
    BulletListRoundTrip(items);
  }

  /** The tab strips off as whitespace, the bullet strip stops at it. */
  lemma TabLine(line: string, text: string)
    requires |text| > 0
    requires !IsBullet(text[|text| - 1]) && !IsSpace(text[|text| - 1])
    requires |line| == |text| + 3 && line[0] == '\t' && line[1] == '-' && line[1..] == "- " + text
    ensures !AllSpace(line)
    ensures CleanLine(line) == "- " + text
  {
    assert line[|line| - 1] == line[1..][|line| - 2] == text[|text| - 1];
    assert !IsSpace(line[1]);
    assert !IsBullet(line[0]);
    StripCharacterised(line, IsBullet, 0, |line|);
    assert line[0..|line|] == line;
    assert IsSpace(line[0]);
    StripCharacterised(line, IsSpace, 1, |line|);
  }

  /**
   * A tab before the bullet stops the bullet strip: the whitespace strip
   * then removes the tab and the line keeps its dash.
   */
  lemma TabIndentedBulletKeepsDash(text: string)
    requires |text| > 0
    requires !IsBullet(text[|text| - 1]) && !IsSpace(text[|text| - 1])
    ensures !AllSpace("\t- " + text)
    ensures CleanLine("\t- " + text) == "- " + text
  {
    var line := "\t- " + text;
    assert line[1..] == "- " + text;
    TabLine(line, text);
  }
}
