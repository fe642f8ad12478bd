/** The two component generators: the printer of the ComponentDirectory tuple, and the parser that reads
    the names back from the printed file. */
module Components {
  /** Python's str.split with a one-character separator. */
  function Split(s: string, sep: char): (parts: seq<string>)
    ensures |parts| > 0
  {
    if |s| == 0 then [""]
    else
      var rest := Split(s[1..], sep);
      if s[0] == sep then [""] + rest else [[s[0]] + rest[0]] + rest[1..]
  }

  /** The characters str.isspace accepts. */
  predicate IsSpace(c: char) {
    var n := c as int;
    || 9 <= n <= 13 || 28 <= n <= 32 || n == 0x85 || n == 0xa0 || n == 0x1680 || 0x2000 <= n <= 0x200a
    || n == 0x2028 || n == 0x2029 || n == 0x202f || n == 0x205f || n == 0x3000
  }

  function StripLeft(s: string): string {
    if |s| > 0 && IsSpace(s[0]) then StripLeft(s[1..]) else s
  }

  function StripRight(s: string): string {
    if |s| > 0 && IsSpace(s[|s| - 1]) then StripRight(s[..|s| - 1]) else s
  }

  /** Python's str.strip. */
  function Strip(s: string): string {
    StripRight(StripLeft(s))
  }

  /** Python's str.join. */
  function Join(sep: string, parts: seq<string>): string {
    if |parts| == 0 then "" else if |parts| == 1 then parts[0] else parts[0] + sep + Join(sep, parts[1..])
  }

  // ---------- Finding the tuple ----------

  const OPEN_NAME := "using ComponentDirectory = std::tuple"
  const OPEN := OPEN_NAME + "<"
  const CLOSE := ">;"

  datatype Found = NotFound | At(pos: nat)

  predicate Occurs(text: string, pat: string, i: nat) {
    i + |pat| <= |text| && text[i..i + |pat|] == pat
  }

  /** The first occurrence of a pattern at or after position i. */
  function Find(text: string, pat: string, i: nat): (f: Found)
    ensures f.At? ==> i <= f.pos && Occurs(text, pat, f.pos) && forall j :: i <= j < f.pos ==> !Occurs(text, pat, j)
    ensures f.NotFound? ==> forall j :: i <= j ==> !Occurs(text, pat, j)
    decreases |text| - i
  {
    if i + |pat| > |text| then NotFound
    else if text[i..i + |pat|] == pat then At(i)
    else Find(text, pat, i + 1)
  }

  /** [c.strip() for c in parts if c.strip()] */
  function StripAll(parts: seq<string>): seq<string> {
    if |parts| == 0 then []
    else (if Strip(parts[0]) != "" then [Strip(parts[0])] else []) + StripAll(parts[1..])
  }

  /** The parser of gen_components_name.py: the text between OPEN and the nearest CLOSE after it. */
  function Parse(text: string): seq<string> {
    match Find(text, OPEN, 0)
    case NotFound => []
    case At(i) =>
      match Find(text, CLOSE, i + |OPEN|)
      case NotFound => []
      case At(j) => StripAll(Split(text[i + |OPEN|..j], ','))
  }

  // ---------- Printing ----------

  const HEADER1 := "#pragma once\n\n#include "
  const HEADER2 := "tuple>\n\n" + NAMESPACE
  const NAMESPACE := "namespace Andromeda::ECS::" + "Component {\n"

  function Declarations(names: seq<string>): string {
    if |names| == 0 then "" else Declarations(names[..|names| - 1]) + ("    struct " + names[|names| - 1] + ";\n")
  }

  function Lines(names: seq<string>): seq<string> {
    seq(|names|, i requires 0 <= i < |names| => "        " + names[i])
  }

  /** The text between the angle brackets. */
  function Body(names: seq<string>): string {
    "\n" + Join(",\n", Lines(names)) + "\n    "
  }

  function Prefix(names: seq<string>): string {
    HEADER1 + "<" + HEADER2 + Declarations(names) + "\n    "
  }

  /** The generated file. */
  function Printed(names: seq<string>): string {
    Prefix(names) + OPEN + Body(names) + CLOSE + "\n}\n"
  }

  /** The writes of gen_components.py for its first file; sorted is what sorted(all_components) gives. */
  method Print(sorted: seq<string>) returns (text: string)
    ensures text == Printed(sorted)
  {
    hide Join, Lines, HEADER1, HEADER2, OPEN, CLOSE;
    text := HEADER1 + "<" + HEADER2;
    ghost var header := text;
    for i := 0 to |sorted|
      invariant text == header + Declarations(sorted[..i])
    {
      assert sorted[..i + 1][..i] == sorted[..i];
      text := text + ("    struct " + sorted[i] + ";\n");
    }
    assert sorted[..|sorted|] == sorted;
    text := text + "\n    " + OPEN + "\n";
    text := text + Join(",\n", Lines(sorted));
    text := text + "\n    " + CLOSE + "\n}\n";
    JoinTexts(header + Declarations(sorted) + "\n    " + OPEN, "\n", Join(",\n", Lines(sorted)), "\n    ", CLOSE, "\n}\n");
  }

  lemma JoinTexts(a: string, b: string, c: string, d: string, e: string, f: string)
    ensures a + b + c + d + e + f == a + (b + c + d) + e + f
  {
  }

  // ---------- Round trip ----------

  /** A name as the generator's pattern finds it: no white space, and none of the characters that
      separate names. Identifiers are of this kind. */
  predicate IsName(name: string) {
    |name| > 0 && forall c :: c in name ==> !IsSpace(c) && c != ',' && c != '<' && c != '>'
  }

  /** The ASCII characters of an identifier. */
  predicate IsIdentifier(name: string) {
    |name| > 0 && forall c :: c in name ==> 'a' <= c <= 'z' || 'A' <= c <= 'Z' || '0' <= c <= '9' || c == '_'
  }

  lemma IdentifiersAreNames(name: string)
    requires IsIdentifier(name)
    ensures IsName(name)
  {
  }

  predicate AreNames(names: seq<string>) {
    forall i :: 0 <= i < |names| ==> IsName(names[i])
  }

  lemma {:induction false} SplitJoin(parts: seq<string>, sep: char)
    requires |parts| > 0 && forall i :: 0 <= i < |parts| ==> sep !in parts[i]
    ensures Split(Join([sep], parts), sep) == parts
    decreases |parts|
  {
    if |parts| == 1 {
      SplitWhole(parts[0], sep);
    } else {
      SplitJoin(parts[1..], sep);
      SplitFirst(parts[0], Join([sep], parts[1..]), sep);
      assert parts[0] + [sep] + Join([sep], parts[1..]) == parts[0] + ([sep] + Join([sep], parts[1..]));
    }
  }

  lemma {:induction false} SplitWhole(s: string, sep: char)
    requires sep !in s
    ensures Split(s, sep) == [s]
  {
    if |s| > 0 {
      SplitWhole(s[1..], sep);
      assert [s[0]] + s[1..] == s;
    }
  }

  lemma {:induction false} SplitFirst(s: string, rest: string, sep: char)
    requires sep !in s
    ensures Split(s + ([sep] + rest), sep) == [s] + Split(rest, sep)
  {
    var all := s + ([sep] + rest);
    if |s| == 0 {
      assert all[1..] == rest;
    } else {
      SplitFirst(s[1..], rest, sep);
      assert all[1..] == s[1..] + ([sep] + rest);
      assert [s[0]] + s[1..] == s;
    }
  }

  ghost predicate Blank(s: string) {
    forall c :: c in s ==> IsSpace(c)
  }

  lemma {:induction false} StripLeftBlank(left: string, s: string)
    requires Blank(left) && |s| > 0 && !IsSpace(s[0])
    ensures StripLeft(left + s) == s
  {
    if |left| > 0 {
      StripLeftBlank(left[1..], s);
      assert (left + s)[1..] == left[1..] + s;
    }
  }

  lemma {:induction false} StripRightBlank(s: string, right: string)
    requires Blank(right) && |s| > 0 && !IsSpace(s[|s| - 1])
    ensures StripRight(s + right) == s
  {
    if |right| > 0 {
      var n := |right| - 1;
      StripRightBlank(s, right[..n]);
      assert (s + right)[..|s + right| - 1] == s + right[..n];
    } else {
      assert s + right == s;
    }
  }

  /** The white space among the ASCII characters. */
  lemma AsciiSpaces(c: char)
    requires c < 128 as char
    ensures IsSpace(c) <==> c in "\t\n\r " || c as int in {11, 12, 28, 29, 30, 31}
  {
  }

  lemma {:induction false} StripLeftIs(s: string) returns (left: string)
    ensures Blank(left) && s == left + StripLeft(s)
    ensures StripLeft(s) != "" ==> !IsSpace(StripLeft(s)[0])
  {
    hide IsSpace;
    left := "";
    if |s| > 0 && IsSpace(s[0]) {
      left := StripLeftIs(s[1..]);
      left := [s[0]] + left;
      assert s == [s[0]] + s[1..];
    }
  }

  lemma {:induction false} StripRightIs(s: string) returns (right: string)
    ensures Blank(right) && s == StripRight(s) + right
    ensures StripRight(s) != "" ==> !IsSpace(StripRight(s)[|StripRight(s)| - 1])
  {
    hide IsSpace;
    right := "";
    if |s| > 0 && IsSpace(s[|s| - 1]) {
      right := StripRightIs(s[..|s| - 1]);
      right := right + [s[|s| - 1]];
      assert s == s[..|s| - 1] + [s[|s| - 1]];
    }
  }

  /** strip takes white space away on both sides, and all of it. */
  lemma StripIs(s: string) returns (left: string, right: string)
    ensures Blank(left) && Blank(right) && s == left + Strip(s) + right
    ensures Strip(s) != "" ==> !IsSpace(Strip(s)[0]) && !IsSpace(Strip(s)[|Strip(s)| - 1])
  {
    hide IsSpace, StripLeft, StripRight;
    left := StripLeftIs(s);
    right := StripRightIs(StripLeft(s));
    assert StripLeft(s) == Strip(s) + right;
    assert Strip(s) != "" ==> Strip(s)[0] == StripLeft(s)[0];
  }

  lemma StripName(left: string, name: string, right: string)
    requires Blank(left) && Blank(right) && IsName(name)
    ensures Strip(left + name + right) == name
  {
    hide IsSpace;
    assert name[0] in name && name[|name| - 1] in name;
    assert left + name + right == left + (name + right);
    StripLeftBlank(left, name + right);
    StripRightBlank(name, right);
  }

  /** The parts between the commas of the body. */
  function Pieces(names: seq<string>): seq<string> {
    if |names| == 0 then []
    else if |names| == 1 then ["\n        " + names[0] + "\n    "]
    else ["\n        " + names[0]] + Pieces(names[1..])
  }

  lemma {:induction false} BodyIsJoin(names: seq<string>)
    requires |names| > 0
    ensures Body(names) == Join(",", Pieces(names))
    decreases |names|
  {
    if |names| > 1 {
      hide Pieces, Join, Lines;
      var rest := Join(",\n", Lines(names[1..]));
      BodyIsJoin(names[1..]);
      MorePieces(names);
      MoreLines(names);
      JoinOne(names[0], rest);
    } else {
      assert Lines(names)[0] == "        " + names[0];
    }
  }

  lemma JoinOne(name: string, rest: string)
    ensures "\n" + ("        " + name + ",\n" + rest) + "\n    " == "\n        " + name + "," + ("\n" + rest + "\n    ")
  {
  }

  lemma MoreLines(names: seq<string>)
    requires |names| > 1
    ensures Join(",\n", Lines(names)) == "        " + names[0] + ",\n" + Join(",\n", Lines(names[1..]))
  {
    assert Lines(names)[1..] == Lines(names[1..]);
  }

  lemma MorePieces(names: seq<string>)
    requires |names| > 1
    ensures Join(",", Pieces(names)) == "\n        " + names[0] + "," + Join(",", Pieces(names[1..]))
  {
  }

  lemma {:induction false} PiecesAreNames(names: seq<string>)
    requires AreNames(names)
    ensures |Pieces(names)| == |names|
    ensures forall i :: 0 <= i < |names| ==> ',' !in Pieces(names)[i] && '>' !in Pieces(names)[i]
    ensures StripAll(Pieces(names)) == names
    decreases |names|
  {
    hide Strip;
    assert Blank("\n        ") && Blank("\n    ") && Blank("");
    if |names| == 1 {
      StripName("\n        ", names[0], "\n    ");
    } else if |names| > 1 {
      StripName("\n        ", names[0], "");
      assert "\n        " + names[0] + "" == "\n        " + names[0];
      PiecesAreNames(names[1..]);
      assert [names[0]] + names[1..] == names;
    }
  }

  /** In the text before the tuple every opening bracket follows a blank, unlike the one that OPEN ends with. */
  ghost predicate BracketsAfterBlank(s: string) {
    forall i :: 0 <= i < |s| && s[i] == '<' ==> i > 0 && s[i - 1] == ' '
  }

  lemma {:induction false} DeclarationsHaveNoBracket(names: seq<string>)
    requires AreNames(names)
    ensures '<' !in Declarations(names)
    decreases |names|
  {
    if |names| > 0 {
      DeclarationsHaveNoBracket(names[..|names| - 1]);
    }
  }

  lemma HeaderBrackets()
    ensures '<' !in HEADER1 && '<' !in HEADER2 && |HEADER1| > 0 && HEADER1[|HEADER1| - 1] == ' '
  {
  }

  lemma PrefixBrackets(names: seq<string>)
    requires AreNames(names)
    ensures BracketsAfterBlank(Prefix(names))
  {
    HeaderBrackets();
    DeclarationsHaveNoBracket(names);
    var rest := HEADER2 + Declarations(names) + "\n    ";
    assert '<' !in rest;
    assert Prefix(names) == HEADER1 + "<" + rest;
    BracketAfter(HEADER1, rest);
  }

  lemma BracketAfter(h: string, rest: string)
    requires |h| > 0 && h[|h| - 1] == ' ' && '<' !in h && '<' !in rest
    ensures BracketsAfterBlank(h + "<" + rest)
  {
    var s := h + "<" + rest;
    assert forall i :: 0 <= i < |h| ==> s[i] == h[i] && h[i] in h;
    assert forall i :: |h| < i < |s| ==> s[i] == rest[i - |h| - 1] && rest[i - |h| - 1] in rest;
  }

  lemma OpenShape()
    ensures |OPEN_NAME| > 0 && OPEN_NAME[|OPEN_NAME| - 1] == 'e' && '<' !in OPEN_NAME
  {
  }

  lemma OccursAt(text: string, pat: string, j: nat, n: nat)
    requires n < |pat|
    ensures Occurs(text, pat, j) ==> j + n < |text| && text[j + n] == pat[n]
  {
    assert Occurs(text, pat, j) ==> text[j..j + |pat|][n] == text[j + n];
  }

  /** The tuple is found where it was printed, and not before. */
  lemma FindsOpen(prefix: string, rest: string)
    requires BracketsAfterBlank(prefix)
    ensures Find(prefix + OPEN + rest, OPEN, 0) == At(|prefix|)
  {
    hide OPEN_NAME;
    var text, n := prefix + OPEN + rest, |OPEN_NAME|;
    assert text[|prefix|..|prefix| + |OPEN|] == OPEN;
    OpenShape();
    forall j: nat | j < |prefix| ensures !Occurs(text, OPEN, j) {
      OccursAt(text, OPEN, j, n);
      OccursAt(text, OPEN, j, n - 1);
      assert j + n < |prefix| ==> text[j + n] == prefix[j + n] && text[j + n - 1] == prefix[j + n - 1];
      assert j + n >= |prefix| ==> text[j + n] == OPEN_NAME[j + n - |prefix|] && OPEN_NAME[j + n - |prefix|] in OPEN_NAME;
    }
    FirstIs(text, OPEN, 0, |prefix|);
  }

  lemma FirstIs(text: string, pat: string, i: nat, at: nat)
    requires i <= at && Occurs(text, pat, at) && forall j: nat :: i <= j < at ==> !Occurs(text, pat, j)
    ensures Find(text, pat, i) == At(at)
  {
  }

  /** The body ends at the first closing bracket after it. */
  lemma FindsClose(front: string, body: string, rest: string)
    requires '>' !in body
    ensures Find(front + body + CLOSE + rest, CLOSE, |front|) == At(|front| + |body|)
  {
    var text := front + body + CLOSE + rest;
    assert text[|front| + |body|..|front| + |body| + |CLOSE|] == CLOSE;
    forall j: nat | |front| <= j < |front| + |body| ensures !Occurs(text, CLOSE, j) {
      OccursAt(text, CLOSE, j, 0);
      assert text[j] == body[j - |front|] && body[j - |front|] in body;
    }
    FirstIs(text, CLOSE, |front|, |front| + |body|);
  }

  lemma {:induction false} JoinLacks(parts: seq<string>, sep: string, c: char)
    requires c !in sep && forall i :: 0 <= i < |parts| ==> c !in parts[i]
    ensures c !in Join(sep, parts)
    decreases |parts|
  {
    if |parts| > 1 {
      JoinLacks(parts[1..], sep, c);
    }
  }

  /** Reading the printed file gives back exactly the names that were printed, in their order. */
  lemma ParseOfPrinted(names: seq<string>)
    requires AreNames(names)
    ensures Parse(Printed(names)) == names
  {
    hide Find, Split, Join, StripAll, Prefix, Declarations, Body, IsName;
    var prefix, body := Prefix(names), Body(names);
    BodyParts(names);
    PrefixBrackets(names);
    FindsOpen(prefix, body + CLOSE + "\n}\n");
    assert Printed(names) == prefix + OPEN + (body + CLOSE + "\n}\n");
    FindsClose(prefix + OPEN, body, "\n}\n");
    assert Printed(names) == (prefix + OPEN) + body + CLOSE + "\n}\n";
    assert Printed(names)[|prefix| + |OPEN|..|prefix| + |OPEN| + |body|] == body;
  }

  lemma BodyParts(names: seq<string>)
    requires AreNames(names)
    ensures '>' !in Body(names) && StripAll(Split(Body(names), ',')) == names
  {
    if |names| == 0 {
      EmptyBody();
    } else {
      hide Split, Join, StripAll, Body;
      PiecesAreNames(names);
      BodyIsJoin(names);
      JoinLacks(Pieces(names), ",", '>');
      SplitJoin(Pieces(names), ',');
    }
  }

  /** Without names the body is blank and nothing is read back. */
  lemma EmptyBody()
    ensures Body([]) == "\n\n    " && StripAll(Split(Body([]), ',')) == []
  {
    assert Body([]) == "\n\n    ";
    SplitWhole("\n\n    ", ',');
    StripBlank("\n\n    ");
  }

  lemma {:induction false} StripBlank(s: string)
    requires Blank(s)
    ensures StripLeft(s) == "" && Strip(s) == ""
  {
    if |s| > 0 {
      StripBlank(s[1..]);
    }
  }

  // ---------- The file line by line ----------

  function Terminated(lines: seq<string>): string {
    if |lines| == 0 then "" else Terminated(lines[..|lines| - 1]) + (lines[|lines| - 1] + "\n")
  }

  ghost predicate NoBreaks(lines: seq<string>) {
    forall i :: 0 <= i < |lines| ==> '\n' !in lines[i]
  }

  lemma {:induction false} SplitTerminated(lines: seq<string>, back: string)
    requires NoBreaks(lines)
    ensures Split(Terminated(lines) + back, '\n') == lines + Split(back, '\n')
    decreases |lines|
  {
    if |lines| > 0 {
      hide Split;
      var front, line := lines[..|lines| - 1], lines[|lines| - 1];
      SplitTerminated(front, line + ("\n" + back));
      SplitFirst(line, back, '\n');
      TerminatedLast(lines, back);
      LastLine(lines, Split(back, '\n'));
    } else {
      assert Terminated(lines) + back == back;
      assert lines + Split(back, '\n') == Split(back, '\n');
    }
  }

  lemma TerminatedLast(lines: seq<string>, back: string)
    requires |lines| > 0
    ensures Terminated(lines) + back == Terminated(lines[..|lines| - 1]) + (lines[|lines| - 1] + ("\n" + back))
  {
  }

  lemma LastLine(lines: seq<string>, rest: seq<string>)
    requires |lines| > 0
    ensures lines[..|lines| - 1] + ([lines[|lines| - 1]] + rest) == lines + rest
  {
  }

  const HEADER_LINES := ["#pragma once", "", "#include <tuple>", "", "namespace Andromeda::ECS::Component {"]

  function DeclarationLines(names: seq<string>): seq<string> {
    seq(|names|, i requires 0 <= i < |names| => "    struct " + names[i] + ";")
  }

  /** One name on each line, with a comma behind all but the last; without names one empty line. */
  function BodyLines(names: seq<string>): seq<string> {
    if |names| == 0 then [""]
    else seq(|names|, i requires 0 <= i < |names| => "        " + names[i] + if i < |names| - 1 then "," else "")
  }

  lemma HeaderParts(back: string)
    ensures HEADER1 + "<" + HEADER2 + back
         == "#pragma once" + ("\n" + ("" + ("\n" + ("#include <tuple>" + ("\n" + ("" + ("\n" + ("namespace Andromeda::ECS::Component {" + ("\n" + back)))))))))
  {
    assert HEADER1 == "#pragma once" + "\n" + "" + "\n" + "#include ";
    assert "#include <tuple>" == "#include " + "<" + "tuple>";
    assert HEADER2 == "tuple>" + "\n" + "" + "\n" + NAMESPACE;
    NamespaceLine();
    hide HEADER1, HEADER2, NAMESPACE;
    JoinHeader("#pragma once", "#include ", "<", "tuple>", "namespace Andromeda::ECS::Component {", back);
  }

  lemma NamespaceLine()
    ensures NAMESPACE == "namespace Andromeda::ECS::Component {" + "\n"
  {
  }

  lemma JoinHeader(a: string, b: string, c: string, d: string, e: string, back: string)
    ensures (a + "\n" + "" + "\n" + b) + c + (d + "\n" + "" + "\n" + (e + "\n")) + back
         == a + ("\n" + ("" + ("\n" + ((b + c + d) + ("\n" + ("" + ("\n" + (e + ("\n" + back)))))))))
  {
  }

  lemma SplitHeader(back: string)
    ensures Split(HEADER1 + "<" + HEADER2 + back, '\n') == HEADER_LINES + Split(back, '\n')
  {
    hide Split, HEADER1, HEADER2;
    var l5 := "namespace Andromeda::ECS::Component {" + ("\n" + back);
    var l4 := "" + ("\n" + l5);
    var l3 := "#include <tuple>" + ("\n" + l4);
    var l2 := "" + ("\n" + l3);
    HeaderParts(back);
    SplitFirst("#pragma once", l2, '\n');
    SplitFirst("", l3, '\n');
    SplitFirst("#include <tuple>", l4, '\n');
    SplitFirst("", l5, '\n');
    SplitFirst("namespace Andromeda::ECS::Component {", back, '\n');
  }

  lemma {:induction false} DeclarationsAreTerminated(names: seq<string>)
    requires AreNames(names)
    ensures Declarations(names) == Terminated(DeclarationLines(names)) && NoBreaks(DeclarationLines(names))
    decreases |names|
  {
    assert IsSpace('\n');
    if |names| > 0 {
      var front := names[..|names| - 1];
      DeclarationsAreTerminated(front);
      assert DeclarationLines(names)[..|names| - 1] == DeclarationLines(front);
      assert "    struct " + names[|names| - 1] + ";\n" == "    struct " + names[|names| - 1] + ";" + "\n";
    }
  }

  lemma {:induction false} SplitBody(names: seq<string>, back: string)
    requires AreNames(names)
    ensures Split(Join(",\n", Lines(names)) + ("\n" + back), '\n') == BodyLines(names) + Split(back, '\n')
    decreases |names|
  {
    hide Split;
    assert IsSpace('\n');
    if |names| == 0 {
      SplitFirst("", back, '\n');
    } else if |names| == 1 {
      assert Lines(names)[0] == "        " + names[0];
      SplitFirst("        " + names[0], back, '\n');
      assert "        " + names[0] + "" == "        " + names[0];
      assert BodyLines(names) == ["        " + names[0]];
    } else {
      hide Join, Lines, IsName;
      var rest, line := Join(",\n", Lines(names[1..])), "        " + names[0] + ",";
      SplitBody(names[1..], back);
      MoreLines(names);
      BodyTail(names[0], rest, back);
      NameLine(names[0]);
      SplitFirst(line, rest + ("\n" + back), '\n');
      MoreBodyLines(names);
    }
  }

  lemma NameLine(name: string)
    requires IsName(name)
    ensures '\n' !in "        " + name + ","
  {
    assert IsSpace('\n');
  }

  lemma BodyTail(name: string, rest: string, back: string)
    ensures ("        " + name + ",\n" + rest) + ("\n" + back) == ("        " + name + ",") + ("\n" + (rest + ("\n" + back)))
  {
  }

  lemma MoreBodyLines(names: seq<string>)
    requires |names| > 1
    ensures BodyLines(names) == ["        " + names[0] + ","] + BodyLines(names[1..])
  {
  }

  /** The generated file is these lines: each name is declared once, in order, before the tuple of all names. */
  lemma PrintedLines(names: seq<string>)
    requires AreNames(names)
    ensures Split(Printed(names), '\n')
         == HEADER_LINES + DeclarationLines(names) + ["", "    " + ("using ComponentDirectory = std::tuple" + "<")]
            + BodyLines(names) + ["    >;", "}", ""]
  {
    hide Split, Join, Lines, Declarations, Terminated, IsName, BodyLines, DeclarationLines, HEADER1, HEADER2, HEADER_LINES, OPEN_NAME;
    var body := Join(",\n", Lines(names));
    var tail := "    >;\n}\n";
    var open := "    " + OPEN;
    OpenLine();
    DeclarationsAreTerminated(names);
    PrintedParts(names, body, open, tail);
    SplitHeader(Declarations(names) + ("\n" + (open + ("\n" + (body + ("\n" + tail))))));
    SplitTerminated(DeclarationLines(names), "\n" + (open + ("\n" + (body + ("\n" + tail)))));
    SplitOpen(open, body + ("\n" + tail));
    SplitBody(names, tail);
    SplitTail(tail);
  }

  lemma PrintedParts(names: seq<string>, body: string, open: string, tail: string)
    requires body == Join(",\n", Lines(names)) && tail == "    >;\n}\n" && open == "    " + OPEN
    ensures Printed(names) == (HEADER1 + "<" + HEADER2) + (Declarations(names) + ("\n" + (open + ("\n" + (body + ("\n" + tail))))))
  {
    hide Join, Lines, Declarations, HEADER1, HEADER2, OPEN_NAME;
  }

  lemma SplitOpen(open: string, rest: string)
    requires '\n' !in open
    ensures Split("\n" + (open + ("\n" + rest)), '\n') == ["", open] + Split(rest, '\n')
  {
    hide Split;
    SplitFirst("", open + ("\n" + rest), '\n');
    SplitFirst(open, rest, '\n');
    assert "" + ("\n" + (open + ("\n" + rest))) == "\n" + (open + ("\n" + rest));
  }

  lemma OpenLine()
    ensures "    " + OPEN == "    " + ("using ComponentDirectory = std::tuple" + "<") && '\n' !in "    " + OPEN
  {
    OpenHasNoBreak();
    assert OPEN == "using ComponentDirectory = std::tuple" + "<";
    hide OPEN_NAME;
  }

  lemma OpenHasNoBreak()
    ensures '\n' !in OPEN_NAME
  {
  }

  lemma SplitTail(tail: string)
    requires tail == "    >;\n}\n"
    ensures Split(tail, '\n') == ["    >;", "}", ""]
  {
    hide Split;
    SplitFirst("    >;", "}\n", '\n');
    SplitFirst("}", "", '\n');
    SplitWhole("", '\n');
    assert tail == "    >;" + ("\n" + "}\n") && "}\n" == "}" + ("\n" + "");
  }
}
