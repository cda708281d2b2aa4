/** The text-handling parts of the step-2 and step-3 handlers and of the
    field picker: reading the header text of the chosen files, cutting it
    into the field choices, and passing the picked fields on as a joined and
    re-split string; and the algorithm radio buttons with their codes. */
module Picker {

  import opened Results
  import opened Seqs
  import opened Strings
  import opened Hashing

  /** `_inputseparator`, the field separator the picker assumes. */
  const InputSeparator: char := ','

  // ---------------------------------------------------------------------
  // Header text
  // ---------------------------------------------------------------------

  /** `handle.readline()`: the text up to and including the first line
      break, or all of it when it has none. */
  function FirstLine(content: string): (r: string)
    ensures |r| <= |content| && r == content[..|r|]
    decreases |content|
  {
    if |content| == 0 then []
    else if content[0] == '\n' then "\n"
    else [content[0]] + FirstLine(content[1..])
  }

  /** A line followed by a line break (or by nothing) reads as that line
      with its line break (or as the line alone). */
  lemma {:induction false} FirstLineOf(line: string, tail: string)
    requires '\n' !in line
    requires |tail| == 0 || tail[0] == '\n'
    ensures FirstLine(line + tail) == if |tail| == 0 then line else line + "\n"
    decreases |line|
  {
    if |line| == 0 {
      assert line + tail == tail;
    } else {
      assert (line + tail)[1..] == line[1..] + tail;
      assert forall ch :: ch in line[1..] ==> ch in line;
      FirstLineOf(line[1..], tail);
      assert [line[0]] + line[1..] == line;
    }
  }

  /** Lines 491-494 of the step-2 handler: the first lines of the chosen
      files, concatenated in order. */
  function HeaderText(contents: seq<string>): string
    decreases |contents|
  {
    if |contents| == 0 then [] else FirstLine(contents[0]) + HeaderText(contents[1..])
  }

  // ---------------------------------------------------------------------
  // Choices
  // ---------------------------------------------------------------------

  /** Lines 80-83 of the picker: line breaks and the input separator become
      commas, and double quotes are removed. */
  function Clean(text: string, sep: char): string {
    var commas := Replace(text, "\n", ",");
    var separated := if sep != ',' then Replace(commas, [sep], ",") else commas;
    Replace(separated, "\"", "")
  }

  /** Lines 84-85: the cleaned text without trailing commas, split at
      commas. */
  function Tokens(text: string, sep: char): seq<string> {
    Split(RStrip(Clean(text, sep), ','), ',')
  }

  /** Lines 86-87: the tokens as a list of distinct choices (the order of
      a Python set is unspecified; the picker sorts its list anyway). */
  function Choices(text: string): (r: seq<string>)
    ensures NoDup(r)
    ensures forall t :: t in r <==> t in Tokens(text, InputSeparator)
  {
    Distinct(Tokens(text, InputSeparator))
  }

  /** A character of the cleaned text is a character of the text or a
      comma, and is never a line break, a double quote, or the separator
      unless the separator is the comma. */
  lemma CleanChars(text: string, sep: char, ch: char)
    requires ch in Clean(text, sep)
    ensures ch in text || ch == ','
    ensures ch != '\n' && ch != '"' && (sep == ',' || ch != sep)
  {
    var commas := Replace(text, "\n", ",");
    var separated := if sep != ',' then Replace(commas, [sep], ",") else commas;
    ReplaceChars(separated, "\"", "", ch);
    if sep != ',' {
      ReplaceChars(commas, [sep], ",", ch);
      if ch in commas {
        ReplaceChars(text, "\n", ",", ch);
      }
    } else {
      ReplaceChars(text, "\n", ",", ch);
    }
  }

  /** No choice contains a comma, a double quote, a line break or the
      input separator. */
  lemma TokensClean(text: string, sep: char)
    ensures forall t, ch :: t in Tokens(text, sep) && ch in t ==>
      ch != ',' && ch != '"' && ch != '\n' && ch != sep
  {
    var stripped := RStrip(Clean(text, sep), ',');
    SplitPiecesFree(stripped, ',');
    SplitPiecesFrom(stripped, ',');
    forall t, ch | t in Tokens(text, sep) && ch in t
      ensures ch != ',' && ch != '"' && ch != '\n' && ch != sep
    {
      assert ch in stripped;
      assert ch in Clean(text, sep);
      CleanChars(text, sep, ch);
    }
  }

  /** The last choice is empty only when the whole cleaned text is: the
      trailing line breaks and commas produce no empty last token. */
  lemma LastTokenEmpty(text: string, sep: char)
    ensures var r := Tokens(text, sep); |r[|r| - 1]| == 0 <==> r == [""]
  {
    SplitLastPiece(RStrip(Clean(text, sep), ','), ',');
  }

  /** Cleaning works piece by piece. */
  lemma CleanAppend(x: string, y: string, sep: char)
    ensures Clean(x + y, sep) == Clean(x, sep) + Clean(y, sep)
  {
    ReplaceCharAppend(x, y, '\n', ",");
    var cx, cy := Replace(x, "\n", ","), Replace(y, "\n", ",");
    if sep != ',' {
      ReplaceCharAppend(cx, cy, sep, ",");
      ReplaceCharAppend(Replace(cx, [sep], ","), Replace(cy, [sep], ","), '"', "");
    } else {
      ReplaceCharAppend(cx, cy, '"', "");
    }
  }

  /** Text without line breaks, double quotes or the separator is left as
      it is by cleaning. */
  lemma CleanPlain(s: string, sep: char)
    requires '\n' !in s && '"' !in s && (sep == ',' || sep !in s)
    ensures Clean(s, sep) == s
  {
    ReplaceCharAbsent(s, '\n', ",");
    if sep != ',' {
      ReplaceCharAbsent(s, sep, ",");
    }
    ReplaceCharAbsent(s, '"', "");
  }

  /** A line break, a comma, a double quote or the separator cleans to a
      comma or to nothing. */
  lemma CleanOne(x: char, sep: char)
    requires x == '\n' || x == ',' || x == '"' || x == sep
    ensures Clean([x], sep) == "," || Clean([x], sep) == ""
  {
    if x == '\n' {
      ReplaceCharSelf('\n', ",");
      if sep != ',' {
        ReplaceCharAbsent(",", sep, ",");
      }
      ReplaceCharAbsent(",", '"', "");
    } else if x == ',' {
      ReplaceCharAbsent([x], '\n', ",");
      if sep != ',' {
        ReplaceCharAbsent(",", sep, ",");
      }
      ReplaceCharAbsent(",", '"', "");
    } else if x == sep {
      ReplaceCharAbsent([x], '\n', ",");
      ReplaceCharSelf(sep, ",");
      ReplaceCharAbsent(",", '"', "");
    } else {
      ReplaceCharAbsent([x], '\n', ",");
      if sep != ',' {
        ReplaceCharAbsent([x], sep, ",");
      }
      ReplaceCharSelf('"', "");
    }
  }

  /** A trailing line break, comma, double quote or separator changes no
      choice. */
  lemma TrailingIgnored(text: string, sep: char, x: char)
    requires x == '\n' || x == ',' || x == '"' || x == sep
    ensures Tokens(text + [x], sep) == Tokens(text, sep)
  {
    CleanAppend(text, [x], sep);
    CleanOne(x, sep);
    if Clean([x], sep) == "," {
      RStripSnoc(Clean(text, sep), ',');
    } else {
      assert Clean(text, sep) + Clean([x], sep) == Clean(text, sep);
    }
  }

  // ---------------------------------------------------------------------
  // Selection
  // ---------------------------------------------------------------------

  /** Lines 120-121 and 110-111: the picked items joined with commas, then
      split at commas unless the joined text is empty. */
  function Selection(items: seq<string>): seq<string> {
    var joined := Join(items, ',');
    if |joined| != 0 then Split(joined, ',') else []
  }

  /** Items without commas come back exactly, except a single empty item,
      which comes back as no selection at all. */
  lemma SelectionRoundTrip(items: seq<string>)
    requires forall t :: t in items ==> ',' !in t
    ensures Selection(items) == items <==> items != [""]
  {
    JoinEmpty(items, ',');
    if |Join(items, ',')| != 0 {
      SplitJoin(items, ',');
    }
  }

  /** Any pick from the choices is passed on exactly, unless it is the
      empty choice alone. */
  lemma SelectionOfChoices(text: string, items: seq<string>)
    requires forall t :: t in items ==> t in Choices(text)
    ensures Selection(items) == items || items == [""]
  {
    TokensClean(text, InputSeparator);
    SelectionRoundTrip(items);
  }

  // ---------------------------------------------------------------------
  // Algorithm buttons
  // ---------------------------------------------------------------------

  /** The radio buttons of step 1. */
  datatype HashButton = NoneButton | RipemdButton | Sha224Button | Sha256Button | Sha384Button | Sha512Button

  /** The `hash2use` code each button sets (lines 380, 395, 409, 423, 437,
      451). */
  function Code(b: HashButton): int {
    match b
    case NoneButton => 0
    case RipemdButton => 1
    case Sha224Button => 2
    case Sha256Button => 3
    case Sha384Button => 4
    case Sha512Button => 5
  }

  /** The algorithm each button names; the "None" button names none. */
  function ButtonAlgorithm(b: HashButton): Option<Algorithm> {
    match b
    case NoneButton => None
    case RipemdButton => Some(RIPEMD160)
    case Sha224Button => Some(SHA224)
    case Sha256Button => Some(SHA256)
    case Sha384Button => Some(SHA384)
    case Sha512Button => Some(SHA512)
  }

  /** `identify_hash(hash2use)` after a button: the codes are distinct, each
      algorithm button selects its own algorithm under its own name with a
      fresh hash object, and the "None" button leaves the state as it
      was. */
  function Press(c: CryptoHash, b: HashButton): (r: CryptoHash)
    ensures forall b' :: Code(b') == Code(b) ==> b' == b
    ensures ButtonAlgorithm(b).None? ==> r == c
    ensures ButtonAlgorithm(b).Some? ==> r == CryptoHash(Name(ButtonAlgorithm(b).value), HashObject(ButtonAlgorithm(b).value, []))
  {
    IdentifyHash(c, Code(b))
  }

  // ---------------------------------------------------------------------
  // Header text of files without a final line break
  // ---------------------------------------------------------------------

  /** As written, a chosen file that consists of a header line without a
      line break runs into the next file's header: the header text of
      `u,v` followed by `w,z` and a line break offers `u`, `vw` and `z`, so
      neither `v` nor `w` is offered on its own. */
  lemma HeaderTextGlues(u: string, v: string, w: string, z: string, sep: char)
    requires Plain(u, sep) && Plain(v, sep) && Plain(w, sep) && Plain(z, sep) && |z| != 0
    ensures Tokens(HeaderText([u + "," + v, w + "," + z + "\n"]), sep) == [u, v + w, z]
  {
    HeaderTextOfTwo(u + "," + v, w + "," + z);
    assert (u + "," + v) + (w + "," + z) + "\n" == u + "," + (v + w) + "," + z + "\n";
    TokensOfLine(u, v + w, z, sep);
  }

  /** The header text of a file without a line break followed by a file
      with one is the two lines run together. */
  lemma HeaderTextOfTwo(first: string, second: string)
    requires '\n' !in first && '\n' !in second
    ensures HeaderText([first, second + "\n"]) == first + second + "\n"
  {
    FirstLineOf(first, "");
    FirstLineOf(second, "\n");
    var contents := [first, second + "\n"];
    assert contents[1..] == [second + "\n"] && contents[1..][1..] == [];
    assert HeaderText(contents[1..]) == FirstLine(second + "\n") + HeaderText([]);
    assert contents[0] == first && FirstLine(first + "") == first && first + "" == first;
    assert HeaderText(contents) == FirstLine(first) + HeaderText(contents[1..]);
  }

  /** A line of three plain fields, the last non-empty, offers those
      three. */
  lemma TokensOfLine(a: string, b: string, z: string, sep: char)
    requires Plain(a, sep) && Plain(b, sep) && Plain(z, sep) && |z| != 0
    ensures Tokens(a + "," + b + "," + z + "\n", sep) == [a, b, z]
  {
    var line := a + "," + b + "," + z;
    assert forall ch :: ch in line ==> ch in a || ch == ',' || ch in b || ch in z;
    CleanTerminated(line, sep);
    RStripSnoc(line, ',');
    RStripPlainEnd(line, z);
    SplitThree(a, b, z);
  }

  /** A line without line breaks, double quotes or the separator, ended by a
      line break, cleans to the line ended by a comma. */
  lemma CleanTerminated(line: string, sep: char)
    requires '\n' !in line && '"' !in line && (sep == ',' || sep !in line)
    ensures Clean(line + "\n", sep) == line + ","
  {
    CleanAppend(line, "\n", sep);
    CleanPlain(line, sep);
    CleanOne('\n', sep);
    ReplaceCharSelf('\n', ",");
  }

  /** Three comma-free pieces joined by commas split back into those
      three. */
  lemma SplitThree(a: string, b: string, z: string)
    requires ',' !in a && ',' !in b && ',' !in z
    ensures Split(a + "," + b + "," + z, ',') == [a, b, z]
  {
    assert a + "," + b + "," + z == a + [','] + (b + [','] + z);
    SplitAround(a, b + [','] + z, ',');
    SplitAround(b, z, ',');
    SplitOfFree(a, ',');
    SplitOfFree(b, ',');
    SplitOfFree(z, ',');
  }

  /** Stripping commas from a text ending in a comma-free field that is not
      empty changes nothing. */
  lemma RStripPlainEnd(s: string, last: string)
    requires |last| != 0 && ',' !in last && |last| <= |s| && s[|s| - |last|..] == last
    ensures RStrip(s, ',') == s
  {
    assert s[|s| - 1] == last[|last| - 1];
    assert last[|last| - 1] in last;
    RStripKeeps(s, ',');
  }

  /** A first line ending in a line break, adding one when the file has
      none. */
  function Terminated(line: string): (r: string)
    ensures |r| != 0 && r[|r| - 1] == '\n'
  {
    if |line| != 0 && line[|line| - 1] == '\n' then line else line + "\n"
  }

  /** The header text with every first line ended by a line break. */
  function TerminatedHeaderText(contents: seq<string>): string
    decreases |contents|
  {
    if |contents| == 0 then [] else Terminated(FirstLine(contents[0])) + TerminatedHeaderText(contents[1..])
  }

  /** A well-formed header: `content` starts with the fields `items`,
      joined by commas, followed by a line break or by nothing; there is at
      least one field, and every field is non-empty and plain. */
  predicate HeaderLine(content: string, items: seq<string>, tail: string, sep: char) {
    content == Join(items, ',') + tail
    && (|tail| == 0 || tail[0] == '\n')
    && |items| != 0
    && forall f :: f in items ==> |f| != 0 && Plain(f, sep)
  }

  /** File `i` has the well-formed header of fields `fields[i]`. */
  predicate Headers(contents: seq<string>, fields: seq<seq<string>>, tails: seq<string>, sep: char) {
    |contents| == |fields| == |tails|
    && forall i :: 0 <= i < |contents| ==> HeaderLine(contents[i], fields[i], tails[i], sep)
  }

  /** A field name holds no comma, double quote, line break or
      separator. */
  predicate Plain(f: string, sep: char) {
    ',' !in f && '"' !in f && '\n' !in f && sep !in f
  }

  /** With every first line ended by a line break, the choices are exactly
      the header fields of the chosen files, in order. */
  lemma TerminatedHeadersOfferEveryField(contents: seq<string>, fields: seq<seq<string>>, tails: seq<string>, sep: char)
    requires |contents| != 0 && Headers(contents, fields, tails, sep)
    ensures Tokens(TerminatedHeaderText(contents), sep) == Flatten(fields)
  {
    var all := Flatten(fields);
    var joined := Join(all, ',');
    TerminatedHeadersClean(contents, fields, tails, sep);
    assert Clean(TerminatedHeaderText(contents), sep) == joined + [','];
    RStripSnoc(joined, ',');
    FlattenFields(fields, tails, contents, sep);
    assert HeaderLine(contents[0], fields[0], tails[0], sep);
    assert fields[0][0] in all;
    var last := all[|all| - 1];
    assert last in all;
    JoinEndsInField(all);
    RStripKeeps(joined, ',');
    assert RStrip(joined + [','], ',') == joined;
    SplitJoin(all, ',');
  }

  /** Every field of every file is non-empty and plain. */
  lemma FlattenFields(fields: seq<seq<string>>, tails: seq<string>, contents: seq<string>, sep: char)
    requires Headers(contents, fields, tails, sep)
    ensures forall f :: f in Flatten(fields) ==> |f| != 0 && Plain(f, sep)
  {
    forall f | f in Flatten(fields)
      ensures |f| != 0 && Plain(f, sep)
    {
      var i :| 0 <= i < |fields| && f in fields[i];
      assert HeaderLine(contents[i], fields[i], tails[i], sep);
    }
  }

  /** A well-formed header line, terminated and cleaned, is its fields
      joined by commas with a final comma. */
  lemma LineClean(content: string, items: seq<string>, tail: string, sep: char)
    requires HeaderLine(content, items, tail, sep)
    ensures Clean(Terminated(FirstLine(content)), sep) == Join(items, ',') + ","
  {
    var line := Join(items, ',');
    JoinPlain(items, sep);
    FirstLineOf(line, tail);
    assert items[|items| - 1] in items;
    JoinEndsInField(items);
    assert Terminated(FirstLine(content)) == line + "\n";
    CleanTerminated(line, sep);
  }

  /** Cleaning the terminated header text gives all fields joined by
      commas, with a final comma. */
  lemma {:induction false} TerminatedHeadersClean(contents: seq<string>, fields: seq<seq<string>>, tails: seq<string>, sep: char)
    requires |contents| != 0 && Headers(contents, fields, tails, sep)
    ensures Clean(TerminatedHeaderText(contents), sep) == Join(Flatten(fields), ',') + ","
    decreases |contents|
  {
    var head := Terminated(FirstLine(contents[0]));
    var rest := TerminatedHeaderText(contents[1..]);
    assert TerminatedHeaderText(contents) == head + rest;
    CleanAppend(head, rest, sep);
    assert HeaderLine(contents[0], fields[0], tails[0], sep);
    LineClean(contents[0], fields[0], tails[0], sep);
    assert Flatten(fields) == fields[0] + Flatten(fields[1..]);
    if |contents| == 1 {
      assert rest == [] && Clean(rest, sep) == [];
      assert fields[1..] == [] && Flatten(fields[1..]) == [];
      assert Flatten(fields) == fields[0];
    } else {
      HeadersTail(contents, fields, tails, sep);
      TerminatedHeadersClean(contents[1..], fields[1..], tails[1..], sep);
      assert HeaderLine(contents[1], fields[1], tails[1], sep);
      assert fields[1] == fields[1..][0];
      FlattenNonEmpty(fields[1..]);
      JoinAppend(fields[0], Flatten(fields[1..]), ',');
    }
  }

  /** The headers of all but the first file are well-formed. */
  lemma HeadersTail(contents: seq<string>, fields: seq<seq<string>>, tails: seq<string>, sep: char)
    requires |contents| != 0 && Headers(contents, fields, tails, sep)
    ensures Headers(contents[1..], fields[1..], tails[1..], sep)
  {
    forall i | 0 <= i < |contents| - 1
      ensures HeaderLine(contents[1..][i], fields[1..][i], tails[1..][i], sep)
    {
      assert HeaderLine(contents[i + 1], fields[i + 1], tails[i + 1], sep);
    }
  }

  /** Joining two non-empty lists is joining each and putting a separator
      between. */
  lemma {:induction false} JoinAppend(a: seq<string>, b: seq<string>, c: char)
    requires |a| != 0 && |b| != 0
    ensures Join(a + b, c) == Join(a, c) + [c] + Join(b, c)
    decreases |a|
  {
    if |a| > 1 {
      assert (a + b)[1..] == a[1..] + b;
      JoinAppend(a[1..], b, c);
    } else {
      assert (a + b)[1..] == b;
    }
  }

  /** Joining plain fields with commas adds no line break, double quote or
      separator other than the comma. */
  lemma {:induction false} JoinPlain(items: seq<string>, sep: char)
    requires forall f :: f in items ==> Plain(f, sep)
    ensures '\n' !in Join(items, ',') && '"' !in Join(items, ',')
    ensures sep == ',' || sep !in Join(items, ',')
    decreases |items|
  {
    if |items| > 1 {
      JoinPlain(items[1..], sep);
      assert items[0] in items;
    } else if |items| == 1 {
      assert items[0] in items;
    }
  }

  /** A join of a non-empty list whose last field is non-empty and has no
      comma does not end in a comma or a line break. */
  lemma {:induction false} JoinEndsInField(items: seq<string>)
    requires |items| != 0 && |items[|items| - 1]| != 0
    ensures var j := Join(items, ','); |j| != 0 && j[|j| - 1] == items[|items| - 1][|items[|items| - 1]| - 1]
    decreases |items|
  {
    if |items| > 1 {
      JoinEndsInField(items[1..]);
    }
  }

  /** With at least one non-empty list, the concatenation is non-empty. */
  lemma FlattenNonEmpty(fields: seq<seq<string>>)
    requires |fields| != 0 && |fields[0]| != 0
    ensures |Flatten(fields)| != 0
  {
    assert fields[0][0] in Flatten(fields);
  }

  /** Stripping leaves a text alone whose last character is not the one
      stripped. */
  lemma RStripKeeps(s: string, c: char)
    requires |s| != 0 && s[|s| - 1] != c
    ensures RStrip(s, c) == s
  {
  }
}
