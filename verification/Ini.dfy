/** IniConfigParse: a line loop over key=value text, with space trimming and first-wins insertion. */
module Ini {
  import opened Wrappers
  import opened Bytes

  const SPACE: Byte := 32
  const HASH: Byte := 35
  const EQUALS: Byte := 61
  const CR: Byte := 13
  const LF: Byte := 10

  /** The characters the code compares with. */
  lemma Characters()
    ensures [SPACE, HASH, EQUALS, CR, LF] == Ascii(" #=\r\n")
  {
  }

  type Text = seq<Byte>
  type Items = map<Text, Text>

  // ---------- std::string searches ----------

  /** find / find_first_of for one character. */
  function Find(s: Text, b: Byte): (r: Option<nat>)
    ensures r.Some? ==> r.value < |s| && s[r.value] == b && b !in s[..r.value]
    ensures r.None? ==> b !in s
  {
    if s == [] then None
    else if s[0] == b then Some(0)
    else
      match Find(s[1..], b)
      case None => None
      case Some(i) => Some(i + 1)
  }

  /** find_first_not_of for one character. */
  function FindNot(s: Text, b: Byte): (r: Option<nat>)
    ensures r.Some? ==> r.value < |s| && s[r.value] != b && (forall i :: 0 <= i < r.value ==> s[i] == b)
    ensures r.None? ==> forall i :: 0 <= i < |s| ==> s[i] == b
  {
    if s == [] then None
    else if s[0] != b then Some(0)
    else
      match FindNot(s[1..], b)
      case None => None
      case Some(i) => Some(i + 1)
  }

  /** The first run of non-spaces; substr throws when there is none. */
  function TrimAllSpace(s: Text): Option<Text>
  {
    match FindNot(s, SPACE)
    case None => None
    case Some(pos) =>
      match Find(s[pos..], SPACE)
      case None => Some(s[pos..])
      case Some(n) => Some(s[pos..pos + n])
  }

  function DropLineEnd(s: Text): Text
    requires s != []
  {
    if s[|s| - 1] == LF || s[|s| - 1] == CR then s[..|s| - 1] else s
  }

  // ---------- one line ----------

  datatype Meaning =
    | Skip
    | Bind(key: Text, val: Text)
    | Throws      // std::out_of_range from substr
    | Undefined   // back() on an empty string

  function MeaningOf(line: Text): Meaning
  {
    if line == [LF] || line == [CR, LF] then Skip
    else
      match FindNot(line, SPACE)
      case None => Skip
      case Some(pos) =>
        if line[pos] == HASH then Skip
        else
          match Find(line, EQUALS)
          case None => Skip
          case Some(pos2) => Binding(line[..pos2], line[pos2 + 1..])
  }

  function Binding(key: Text, val: Text): Meaning
  {
    if key == [] then Undefined
    else if DropLineEnd(key) == [] then Skip
    else
      match TrimAllSpace(DropLineEnd(key))
      case None => Throws
      case Some(k) =>
        if val == [] then Undefined
        else if DropLineEnd(val) == [] then Bind(k, [])
        else
          match TrimAllSpace(DropLineEnd(val))
          case None => Throws
          case Some(v) => Bind(k, v)
  }

  // ---------- the whole text ----------

  /** What std::getline yields: a last line without its line feed counts, an empty rest does not. */
  function Lines(text: Text): seq<Text>
  {
    if text == [] then []
    else
      match Find(text, LF)
      case None => [text]
      case Some(i) => [text[..i]] + Lines(text[i + 1..])
  }

  /** The lines, each with a line feed after it. */
  function Terminated(lines: seq<Text>): Text
  {
    if lines == [] then [] else lines[0] + [LF] + Terminated(lines[1..])
  }

  /** The lines a text consists of: without line feeds in them, one after each, but the last may lack it and is then
      not empty. */
  ghost predicate AreLines(text: Text, lines: seq<Text>)
  {
    && (forall i :: 0 <= i < |lines| ==> LF !in lines[i])
    && (|| text == Terminated(lines)
        || (lines != [] && lines[|lines| - 1] != [] && text + [LF] == Terminated(lines)))
  }

  lemma FirstLine(line: Text, rest: Text)
    requires LF !in line
    ensures Lines(line + [LF] + rest) == [line] + Lines(rest)
  {
    FindAfter(line, LF, rest);
    assert (line + [LF] + rest)[..|line|] == line;
    assert (line + [LF] + rest)[|line| + 1..] == rest;
  }

  lemma OneLine(line: Text)
    requires LF !in line && line != []
    ensures Lines(line) == [line]
  {
  }

  /** There is exactly one way to take a text apart into lines, and getline finds it. */
  lemma {:induction false} LinesIff(text: Text, lines: seq<Text>)
    ensures AreLines(text, lines) <==> lines == Lines(text)
    decreases |text|, |lines|
  {
    if AreLines(text, lines) {
      LinesAreFound(text, lines);
    }
    LinesAreLines(text);
  }

  lemma {:induction false} LinesAreFound(text: Text, lines: seq<Text>)
    requires AreLines(text, lines)
    ensures lines == Lines(text)
    decreases |lines|
  {
    if lines != [] {
      var line, rest := lines[0], Terminated(lines[1..]);
      assert lines == [line] + lines[1..] && Terminated(lines) == line + [LF] + rest;
      assert |lines| == 1 ==> rest == [];
      hide Lines, Terminated;
      if text == Terminated(lines) {
        FirstLine(line, rest);
        LinesAreFound(rest, lines[1..]);
      } else if |lines| == 1 {
        DropLast(text, line);
        OneLine(line);
      } else {
        TerminatedEnds(lines[1..]);
        var inner := rest[..|rest| - 1];
        assert line + [LF] + rest == (line + [LF] + inner) + [LF];
        DropLast(text, line + [LF] + inner);
        FirstLine(line, inner);
        LinesAreFound(inner, lines[1..]);
      }
    }
  }

  lemma DropLast(a: Text, b: Text)
    requires a + [LF] == b + [LF]
    ensures a == b
  {
    assert a == (a + [LF])[..|a|] && b == (b + [LF])[..|b|] && |a + [LF]| == |b + [LF]|;
  }

  lemma TerminatedEnds(lines: seq<Text>)
    requires lines != []
    ensures var t := Terminated(lines); t != [] && t == t[..|t| - 1] + [LF]
    decreases lines
  {
    if |lines| > 1 {
      TerminatedEnds(lines[1..]);
    }
  }

  lemma {:induction false} LinesAreLines(text: Text)
    ensures AreLines(text, Lines(text))
    decreases |text|
  {
    if text != [] {
      match Find(text, LF)
      case None =>
        assert [text][1..] == [];
        assert Terminated([text]) == text + [LF];
      case Some(i) =>
        var line, rest := text[..i], text[i + 1..];
        assert text == line + [LF] + rest;
        LinesAreLines(rest);
        var lines := Lines(rest);
        assert ([line] + lines)[1..] == lines;
        assert Terminated([line] + lines) == line + [LF] + Terminated(lines);
    }
  }

  datatype End = Returned(ok: bool) | Threw | Broke

  datatype Outcome = Outcome(end: End, items: Items)

  /** insert leaves an existing key alone. */
  function Insert(items: Items, key: Text, val: Text): Items
  {
    if key in items then items else items[key := val]
  }

  function ReadLines(lines: seq<Text>, items: Items): Outcome
    decreases lines
  {
    if lines == [] then Outcome(Returned(items != map[]), items)
    else
      match MeaningOf(lines[0])
      case Skip => ReadLines(lines[1..], items)
      case Bind(k, v) => ReadLines(lines[1..], Insert(items, k, v))
      case Throws => Outcome(Threw, items)
      case Undefined => Outcome(Broke, items)
  }

  /** parse as it runs: reject the empty text, then take line after line. */
  method Parse(text: Text, items: Items) returns (end: End, out: Items)
    ensures text == [] ==> end == Returned(false) && out == items
    ensures text != [] ==> Outcome(end, out) == ReadLines(Lines(text), items)
    ensures text != [] ==> Means(Outcome(end, out), Lines(text), items)
  {
    FirstBindingWins(text, items);
    hide Means;
    out := items;
    if text == [] {
      return Returned(false), out;
    }
    var pos := 0;
    while pos < |text|
      invariant pos <= |text|
      invariant ReadLines(Lines(text[pos..]), out) == ReadLines(Lines(text), items)
    {
      var rest := text[pos..];
      var line;
      match Find(rest, LF) {
        case None =>
          line := rest;
          pos := |text|;
        case Some(i) =>
          line := rest[..i];
          assert rest[i + 1..] == text[pos + i + 1..];
          pos := pos + i + 1;
      }
      assert Lines(rest) == [line] + Lines(text[pos..]);
      assert ([line] + Lines(text[pos..]))[1..] == Lines(text[pos..]);
      match MeaningOf(line) {
        case Skip =>
        case Bind(k, v) => out := Insert(out, k, v);
        case Throws => return Threw, out;
        case Undefined => return Broke, out;
      }
    }
    assert text[pos..] == [];
    end := Returned(out != map[]);
  }

  // ---------- what a line means ----------

  predicate Blank(s: Text)
  {
    forall i :: 0 <= i < |s| ==> s[i] == SPACE
  }

  predicate PlainKey(k: Text)
  {
    k != [] && SPACE !in k && EQUALS !in k && LF !in k && k[0] != HASH && k[|k| - 1] != CR
  }

  predicate PlainValue(v: Text)
  {
    v != [] && SPACE !in v && LF !in v && v[|v| - 1] != CR
  }

  /** The first match is found: at |a| when `a` has none, and never later. */
  lemma {:induction false} FindAfter(a: Text, b: Byte, rest: Text)
    ensures var r := Find(a + [b] + rest, b); r.Some? && r.value <= |a| && (b !in a ==> r.value == |a|)
  {
    if a != [] {
      FindAfter(a[1..], b, rest);
      assert (a + [b] + rest)[1..] == a[1..] + [b] + rest;
    }
  }

  lemma FindNotAfter(blanks: Text, s: Text)
    requires Blank(blanks) && s != [] && s[0] != SPACE
    ensures FindNot(blanks + s, SPACE) == Some(|blanks|)
  {
    assert (blanks + s)[|blanks|] == s[0];
  }

  /** The first word of a text: what stands between the leading spaces and the next one, if any. */
  ghost predicate FirstWord(s: Text, w: Text)
  {
    w != [] && SPACE !in w && exists a, rest :: IsSplit(s, a, w, rest)
  }

  predicate IsSplit(s: Text, a: Text, w: Text, rest: Text)
  {
    Blank(a) && s == a + w + rest && (rest == [] || rest[0] == SPACE)
  }

  lemma TrimSplit(s: Text, a: Text, w: Text, rest: Text)
    requires IsSplit(s, a, w, rest) && w != [] && SPACE !in w
    ensures TrimAllSpace(s) == Some(w)
  {
    assert s == a + (w + rest);
    FindNotAfter(a, w + rest);
    assert s[|a|..] == w + rest;
    if rest != [] {
      assert w + rest == w + [SPACE] + rest[1..];
      FindAfter(w, SPACE, rest[1..]);
      assert s[|a|..|a| + |w|] == w;
    } else {
      assert w + rest == w;
      assert Find(w, SPACE) == None;
    }
  }

  /** TrimAllSpace yields the first word, and throws when there is none. */
  lemma TrimIff(s: Text, w: Text)
    ensures TrimAllSpace(s) == Some(w) <==> FirstWord(s, w)
    ensures TrimAllSpace(s) == None <==> Blank(s)
  {
    hide FindNot, Find, Blank;
    TrimNoneIff(s);
    if TrimAllSpace(s) == Some(w) {
      TrimmedIsFirst(s, w);
    }
    if FirstWord(s, w) {
      var a, rest :| IsSplit(s, a, w, rest);
      TrimSplit(s, a, w, rest);
    }
  }

  lemma TrimNoneIff(s: Text)
    ensures TrimAllSpace(s) == None <==> Blank(s)
  {
    hide Find;
  }

  lemma TrimmedIsFirst(s: Text, w: Text)
    requires TrimAllSpace(s) == Some(w)
    ensures FirstWord(s, w)
  {
    var pos := FindNot(s, SPACE).value;
    var tail := s[pos..];
    var n := if Find(tail, SPACE).Some? then Find(tail, SPACE).value else |tail|;
    assert w == if n < |tail| then s[pos..pos + n] else tail;
    hide *;
    LeadingBlank(s, pos);
    WordEnd(tail, n);
    SliceOfTail(s, pos, n);
    SplitIsFirst(s, pos, n);
    assert tail[..|tail|] == tail;
  }

  lemma SplitIsFirst(s: Text, pos: nat, n: nat)
    requires pos < |s| && n <= |s| - pos && n > 0 && Blank(s[..pos]) && SPACE !in s[pos..][..n]
    requires s[pos..][n..] == [] || s[pos..][n..][0] == SPACE
    ensures FirstWord(s, s[pos..][..n])
  {
    hide Blank;
    SliceOfTail(s, pos, n);
    assert IsSplit(s, s[..pos], s[pos..][..n], s[pos..][n..]);
  }

  lemma LeadingBlank(s: Text, pos: nat)
    requires FindNot(s, SPACE) == Some(pos)
    ensures pos < |s| && Blank(s[..pos]) && s[pos] != SPACE
  {
    hide FindNot;
  }

  lemma WordEnd(tail: Text, n: nat)
    requires n == if Find(tail, SPACE).Some? then Find(tail, SPACE).value else |tail|
    ensures n <= |tail| && SPACE !in tail[..n] && (tail[n..] == [] || tail[n..][0] == SPACE)
    ensures tail != [] && tail[0] != SPACE ==> n > 0
  {
    hide Find;
  }

  lemma SliceOfTail(s: Text, pos: nat, n: nat)
    requires pos + n <= |s|
    ensures s[pos..pos + n] == s[pos..][..n]
    ensures s == s[..pos] + s[pos..][..n] + s[pos..][n..]
  {
  }

  lemma PaddedKey(a: Text, k: Text, b: Text)
    requires Blank(a) && Blank(b) && PlainKey(k)
    ensures var left := a + k + b;
            left != [] && EQUALS !in left && DropLineEnd(left) == left && TrimAllSpace(left) == Some(k)
  {
    var left := a + k + b;
    assert left[|left| - 1] == if b == [] then k[|k| - 1] else SPACE;
    TrimSplit(left, a, k, b);
  }

  lemma PaddedValue(c: Text, v: Text, d: Text, eol: Text)
    requires Blank(c) && Blank(d) && PlainValue(v) && (eol == [] || eol == [CR])
    ensures var right := c + v + d + eol;
            right != [] && DropLineEnd(right) == c + v + d && TrimAllSpace(c + v + d) == Some(v)
  {
    var right := c + v + d + eol;
    assert right[|right| - 1] == if eol != [] then CR else if d == [] then v[|v| - 1] else SPACE;
    assert eol != [] ==> right[..|right| - 1] == c + v + d;
    assert eol == [] ==> right == c + v + d;
    TrimSplit(c + v + d, c, v, d);
  }

  /** A line splits at its first '=' unless it is blank or a comment. */
  lemma SplitLine(a: Text, left: Text, right: Text)
    requires left != [] && EQUALS !in left && |a| < |left| && Blank(a)
    requires a == left[..|a|] && left[|a|] != SPACE && left[|a|] != HASH
    ensures MeaningOf(left + [EQUALS] + right) == Binding(left, right)
  {
    hide Find, FindNot, Binding;
    var line := left + [EQUALS] + right;
    assert line == a + line[|a|..];
    FindNotAfter(a, line[|a|..]);
    FindAfter(left, EQUALS, right);
    assert line[..|left|] == left && line[|left| + 1..] == right;
    assert line[|left|] == EQUALS;
  }

  /** Spaces around the key and the value and a carriage return at the end of the line change nothing. */
  lemma PaddedLine(a: Text, k: Text, b: Text, c: Text, v: Text, d: Text, eol: Text)
    requires Blank(a) && Blank(b) && Blank(c) && Blank(d) && (eol == [] || eol == [CR])
    requires PlainKey(k) && PlainValue(v)
    ensures MeaningOf((a + k + b) + [EQUALS] + (c + v + d + eol)) == Bind(k, v)
  {
    hide MeaningOf, TrimAllSpace, DropLineEnd;
    PaddedKey(a, k, b);
    PaddedValue(c, v, d, eol);
    SplitLine(a, a + k + b, c + v + d + eol);
    assert v[0] in c + v + d;
  }

  lemma TrimIsWord(s: Text)
    ensures TrimAllSpace(s).Some? ==>
              var w := TrimAllSpace(s).value; w != [] && SPACE !in w && |w| <= |s|
  {
    var pos := FindNot(s, SPACE);
    if pos.Some? {
      var n := Find(s[pos.value..], SPACE);
      if n.Some? {
        assert s[pos.value..pos.value + n.value] == s[pos.value..][..n.value];
      }
    }
  }

  /** Written plainly as key=value, a pair means itself exactly when the key is a word without '=', does not
      start a comment, the value is a word, and neither ends in a carriage return. */
  lemma PlainLineIff(k: Text, v: Text)
    requires LF !in k && LF !in v
    ensures MeaningOf(k + [EQUALS] + v) == Bind(k, v) <==> PlainKey(k) && PlainValue(v)
  {
    hide MeaningOf, PlainKey, PlainValue;
    var line := k + [EQUALS] + v;
    if PlainKey(k) && PlainValue(v) {
      PaddedLine([], k, [], [], v, [], []);
      assert [] + k + [] == k && [] + v + [] + [] == v;
    }
    BoundLineIsPlain(k, v);
  }

  lemma BoundLineIsPlain(k: Text, v: Text)
    requires LF !in k && LF !in v
    ensures MeaningOf(k + [EQUALS] + v) == Bind(k, v) ==> PlainKey(k) && PlainValue(v)
  {
    hide TrimAllSpace;
    var line := k + [EQUALS] + v;
    FindAfter(k, EQUALS, v);
    var pos2 := Find(line, EQUALS).value;
    if MeaningOf(line) == Bind(k, v) {
      BindingShrinks(line[..pos2], line[pos2 + 1..]);
      assert pos2 == |k| && line[..pos2] == k && line[pos2 + 1..] == v;
      assert line[0] == k[0];
    }
  }

  lemma BindingShrinks(key: Text, val: Text)
    requires Binding(key, val).Bind?
    ensures var m := Binding(key, val);
            && m.key != [] && SPACE !in m.key && |m.key| <= |key| && key != [] && val != []
            && (|m.key| == |key| ==> key[|key| - 1] != LF && key[|key| - 1] != CR)
            && SPACE !in m.val && |m.val| <= |val|
            && (|m.val| == |val| ==> val[|val| - 1] != LF && val[|val| - 1] != CR)
  {
    hide TrimAllSpace;
    TrimIsWord(DropLineEnd(key));
    if DropLineEnd(val) != [] {
      TrimIsWord(DropLineEnd(val));
    }
  }

  ghost predicate Comment(line: Text)
  {
    exists a, rest :: Blank(a) && line == a + [HASH] + rest
  }

  lemma CommentIff(line: Text)
    ensures Comment(line) <==> FindNot(line, SPACE).Some? && line[FindNot(line, SPACE).value] == HASH
  {
    var pos := FindNot(line, SPACE);
    if pos.Some? && line[pos.value] == HASH {
      assert Blank(line[..pos.value]) && line == line[..pos.value] + [HASH] + line[pos.value + 1..];
    }
    if a, rest :| Blank(a) && line == a + [HASH] + rest {
      assert line == a + ([HASH] + rest);
      FindNotAfter(a, [HASH] + rest);
    }
  }

  lemma LoneReturnIff(line: Text)
    requires LF !in line && Find(line, EQUALS).Some?
    ensures var key := line[..Find(line, EQUALS).value];
            key != [] && DropLineEnd(key) == [] <==> exists rest :: line == [CR, EQUALS] + rest
  {
    var pos2 := Find(line, EQUALS).value;
    var key := line[..pos2];
    if key != [] && DropLineEnd(key) == [] {
      assert key[0] in line;
      assert line == [CR, EQUALS] + line[2..];
    }
    if rest :| line == [CR, EQUALS] + rest {
      assert line == [CR] + [EQUALS] + rest;
      FindAfter([CR], EQUALS, rest);
      assert line[..1] == [CR];
    }
  }

  /** Blank, a comment, without '=', or with nothing but a carriage return before it. */
  ghost predicate Ignored(line: Text)
  {
    || Blank(line)
    || Comment(line)
    || EQUALS !in line
    || (exists rest :: line == [CR, EQUALS] + rest)
  }

  lemma SkippedIff(line: Text)
    requires LF !in line
    ensures MeaningOf(line) == Skip <==> Ignored(line)
  {
    hide Comment, TrimAllSpace, DropLineEnd;
    CommentIff(line);
    if Find(line, EQUALS).Some? {
      LoneReturnIff(line);
    }
    if rest :| line == [CR, EQUALS] + rest {
      assert line[0] == CR;
    }
  }

  // ---------- the lines with a '=' ----------

  /** One side of the '=' without the carriage return of the line's end. */
  function WithoutEnd(s: Text): Text
  {
    if s == [] then [] else DropLineEnd(s)
  }

  /** A line that is no comment, split at its first '='. */
  ghost predicate Splits(line: Text, left: Text, right: Text)
  {
    line == left + [EQUALS] + right && EQUALS !in left && LF !in line && !Comment(line)
  }

  lemma SplitMeans(line: Text, left: Text, right: Text)
    requires Splits(line, left, right)
    ensures MeaningOf(line) == Binding(left, right)
    ensures forall l, r :: Splits(line, l, r) ==> l == left && r == right
  {
    hide Binding, Comment;
    CommentIff(line);
    assert line[|left|] == EQUALS;
    FindAfter(left, EQUALS, right);
    assert line[..|left|] == left && line[|left| + 1..] == right;
    assert FindNot(line, SPACE).Some?;
    forall l, r | Splits(line, l, r)
      ensures l == left && r == right
    {
      FindAfter(l, EQUALS, r);
      assert line[..|l|] == l && line[|l| + 1..] == r;
    }
  }

  lemma SideMeans(s: Text, w: Text)
    requires LF !in s && s != []
    ensures DropLineEnd(s) == WithoutEnd(s)
    ensures DropLineEnd(s) == [] <==> s == [CR]
    ensures TrimAllSpace(WithoutEnd(s)) == Some(w) <==> FirstWord(WithoutEnd(s), w)
    ensures TrimAllSpace(WithoutEnd(s)) == None <==> Blank(WithoutEnd(s))
  {
    hide TrimAllSpace, FirstWord, Blank;
    TrimIff(WithoutEnd(s), w);
  }

  ghost predicate Breaks(left: Text, right: Text)
  {
    left == [] || (!Blank(WithoutEnd(left)) && right == [])
  }

  ghost predicate Fails(left: Text, right: Text)
  {
    || (left != [] && left != [CR] && Blank(WithoutEnd(left)))
    || (!Blank(WithoutEnd(left)) && right != [] && right != [CR] && Blank(WithoutEnd(right)))
  }

  ghost predicate HasBoth(left: Text, right: Text)
  {
    !Blank(WithoutEnd(left)) && (right == [CR] || !Blank(WithoutEnd(right)))
  }

  ghost predicate Gives(left: Text, right: Text, k: Text, v: Text)
  {
    FirstWord(WithoutEnd(left), k) && if right == [CR] then v == [] else FirstWord(WithoutEnd(right), v)
  }

  /** What becomes of a line with a '=': back() is called on an empty string exactly when nothing stands before the
      '=', or a word does and nothing comes after it; substr throws exactly when one side has only spaces, with or
      without a carriage return; and otherwise the first word on the left is bound to the first word on the right,
      or to nothing when only a carriage return stands there. */
  lemma SplitLineIff(line: Text, left: Text, right: Text, k: Text, v: Text)
    requires Splits(line, left, right)
    ensures MeaningOf(line) == Undefined <==> Breaks(left, right)
    ensures MeaningOf(line) == Throws <==> Fails(left, right)
    ensures MeaningOf(line) == Skip <==> left == [CR]
    ensures MeaningOf(line).Bind? <==> HasBoth(left, right)
    ensures MeaningOf(line) == Bind(k, v) <==> Gives(left, right, k, v)
  {
    hide MeaningOf, Binding, Breaks, Fails, HasBoth, Gives, Comment;
    SplitMeans(line, left, right);
    assert line[|left| + 1..] == right && line[..|left|] == left;
    BindingIff(left, right, k, v);
  }

  lemma BindingIff(left: Text, right: Text, k: Text, v: Text)
    requires LF !in left && LF !in right
    ensures Binding(left, right) == Undefined <==> Breaks(left, right)
    ensures Binding(left, right) == Throws <==> Fails(left, right)
    ensures Binding(left, right) == Skip <==> left == [CR]
    ensures Binding(left, right).Bind? <==> HasBoth(left, right)
    ensures Binding(left, right) == Bind(k, v) <==> Gives(left, right, k, v)
  {
    hide DropLineEnd, TrimAllSpace, FirstWord, Blank, WithoutEnd;
    NoWordInNothing(k, v);
    if left != [] {
      SideMeans(left, k);
    }
    if right != [] {
      SideMeans(right, v);
    }
  }

  lemma NoWordInNothing(k: Text, v: Text)
    ensures Blank(WithoutEnd([])) && !FirstWord(WithoutEnd([]), k) && !FirstWord(WithoutEnd([]), v)
    ensures Blank(WithoutEnd([CR])) && !FirstWord(WithoutEnd([CR]), k) && !FirstWord(WithoutEnd([CR]), v)
  {
  }

  /** A key without a value: nothing after the '=' is undefined, a space throws, and a carriage return binds the
      key to nothing. */
  lemma KeysWithoutValue(k: Text)
    requires PlainKey(k)
    ensures MeaningOf(k + [EQUALS] + []) == Undefined
    ensures MeaningOf(k + [EQUALS] + [SPACE]) == Throws
    ensures MeaningOf(k + [EQUALS] + [CR]) == Bind(k, [])
  {
    hide MeaningOf, Comment;
    assert WithoutEnd(k) == k && !Blank(k) by { assert k[0] != SPACE; }
    assert IsSplit(k, [], k, []);
    forall right: Text | right == [] || right == [SPACE] || right == [CR]
      ensures Splits(k + [EQUALS] + right, k, right)
    {
      PlainKeyIsNoComment(k, [EQUALS] + right);
      assert k + [EQUALS] + right == k + ([EQUALS] + right);
    }
    SplitLineIff(k + [EQUALS] + [], k, [], k, []);
    SplitLineIff(k + [EQUALS] + [SPACE], k, [SPACE], k, []);
    SplitLineIff(k + [EQUALS] + [CR], k, [CR], k, []);
  }

  lemma PlainKeyIsNoComment(k: Text, rest: Text)
    requires PlainKey(k)
    ensures !Comment(k + rest)
  {
    CommentIff(k + rest);
    assert (k + rest)[0] == k[0];
    FindNotAfter([], k + rest);
    assert [] + (k + rest) == k + rest;
  }

  // ---------- what a text means ----------

  /** The line binds k to v. */
  ghost predicate Assigns(line: Text, k: Text, v: Text)
  {
    exists left, right :: Splits(line, left, right) && Gives(left, right, k, v)
  }

  ghost predicate HasKeyAndValue(line: Text)
  {
    exists left, right :: Splits(line, left, right) && HasBoth(left, right)
  }

  ghost predicate StopsShort(line: Text)
  {
    exists left, right :: Splits(line, left, right) && Breaks(left, right)
  }

  lemma SplitExists(line: Text) returns (left: Text, right: Text)
    requires LF !in line && EQUALS in line && !Comment(line)
    ensures Splits(line, left, right)
  {
    var pos := Find(line, EQUALS).value;
    left, right := line[..pos], line[pos + 1..];
  }

  /** What the code makes of any line can be read off the line. */
  lemma LineMeaning(line: Text, k: Text, v: Text)
    requires LF !in line
    ensures MeaningOf(line) == Skip <==> Ignored(line)
    ensures MeaningOf(line) == Bind(k, v) <==> Assigns(line, k, v)
    ensures MeaningOf(line).Bind? <==> HasKeyAndValue(line)
    ensures MeaningOf(line) == Undefined <==> StopsShort(line)
  {
    SkippedIff(line);
    hide MeaningOf, Breaks, Gives, HasBoth;
    if EQUALS in line && !Comment(line) {
      var left, right := SplitExists(line);
      SplitMeans(line, left, right);
      SplitLineIff(line, left, right, k, v);
    } else {
      forall left, right
        ensures !Splits(line, left, right)
      {
        if line == left + [EQUALS] + right {
          assert line[|left|] == EQUALS;
        }
      }
    }
  }

  /** The lines up to the first one that parse gives up on. */
  ghost function Understood(lines: seq<Text>): (good: seq<Text>)
    ensures good <= lines
  {
    if lines == [] || !(Ignored(lines[0]) || HasKeyAndValue(lines[0])) then []
    else [lines[0]] + Understood(lines[1..])
  }

  /** The first line that binds the key binds it to v. */
  ghost predicate FirstBound(lines: seq<Text>, key: Text, v: Text)
  {
    exists i :: 0 <= i < |lines| && Assigns(lines[i], key, v) && UnboundBefore(lines, i, key)
  }

  ghost predicate UnboundBefore(lines: seq<Text>, i: nat, key: Text)
    requires i <= |lines|
  {
    forall j, u :: 0 <= j < i ==> !Assigns(lines[j], key, u)
  }

  lemma FirstBoundStep(line: Text, rest: seq<Text>, key: Text, v: Text)
    ensures FirstBound([line] + rest, key, v) <==>
            Assigns(line, key, v) || ((forall u :: !Assigns(line, key, u)) && FirstBound(rest, key, v))
  {
    hide Assigns;
    var lines := [line] + rest;
    if FirstBound(lines, key, v) {
      var i :| 0 <= i < |lines| && Assigns(lines[i], key, v) && UnboundBefore(lines, i, key);
      if i > 0 {
        assert lines[0] == line && rest[i - 1] == lines[i];
        assert forall j :: 0 <= j < i - 1 ==> rest[j] == lines[j + 1];
        assert UnboundBefore(rest, i - 1, key);
      }
    }
    if Assigns(line, key, v) {
      assert lines[0] == line && UnboundBefore(lines, 0, key);
    } else if (forall u :: !Assigns(line, key, u)) && FirstBound(rest, key, v) {
      var i :| 0 <= i < |rest| && Assigns(rest[i], key, v) && UnboundBefore(rest, i, key);
      assert lines[i + 1] == rest[i];
      assert forall j :: 0 < j < i + 1 ==> lines[j] == rest[j - 1];
      assert UnboundBefore(lines, i + 1, key);
    }
  }

  lemma {:induction false} LinesHaveNoFeed(text: Text)
    ensures forall i :: 0 <= i < |Lines(text)| ==> LF !in Lines(text)[i]
    decreases |text|
  {
    if text != [] && Find(text, LF).Some? {
      LinesHaveNoFeed(text[Find(text, LF).value + 1..]);
    }
  }

  /** What `r` must be when these lines are read on top of `items`. */
  ghost predicate Means(r: Outcome, lines: seq<Text>, items: Items)
  {
    var good := Understood(lines);
    && r.end == (if |good| == |lines| then Returned(r.items != map[])
                 else if StopsShort(lines[|good|]) then Broke
                 else Threw)
    && (forall key :: key in items ==> key in r.items && r.items[key] == items[key])
    && (forall key, v :: key !in items ==> (key in r.items && r.items[key] == v <==> FirstBound(good, key, v)))
  }

  lemma {:induction false} LinesMean(lines: seq<Text>, items: Items)
    requires forall i :: 0 <= i < |lines| ==> LF !in lines[i]
    ensures Means(ReadLines(lines, items), lines, items)
    decreases lines
  {
    hide MeaningOf, Ignored, HasKeyAndValue, Assigns, StopsShort;
    var r, good := ReadLines(lines, items), Understood(lines);
    if lines != [] {
      hide FirstBound;
      var m := MeaningOf(lines[0]);
      LineMeaning(lines[0], [], []);
      forall k, v
        ensures m == Bind(k, v) <==> Assigns(lines[0], k, v)
      {
        LineMeaning(lines[0], k, v);
      }
      if m.Skip? || m.Bind? {
        LinesMean(lines[1..], if m.Bind? then Insert(items, m.key, m.val) else items);
        assert good == [lines[0]] + Understood(lines[1..]);
        forall key, v
          ensures FirstBound(good, key, v) <==>
                  Assigns(lines[0], key, v) ||
                  ((forall u :: !Assigns(lines[0], key, u)) && FirstBound(Understood(lines[1..]), key, v))
        {
          FirstBoundStep(lines[0], Understood(lines[1..]), key, v);
        }
      } else {
        NothingBound();
      }
    } else {
      NothingBound();
    }
  }

  lemma NothingBound()
    ensures forall key, v :: !FirstBound([], key, v)
  {
  }

  /** For every old map and the lines of every text: the old items are untouched, every other key gets the value of
      the first line that binds it, up to the first line parse cannot digest, and the end says whether and how it got
      stuck there. Parse returns this for every text but the empty one. */
  lemma FirstBindingWins(text: Text, items: Items)
    ensures Means(ReadLines(Lines(text), items), Lines(text), items)
  {
    hide Lines, ReadLines, Means;
    LinesHaveNoFeed(text);
    LinesMean(Lines(text), items);
  }

  lemma UnderstoodStep(line: Text, rest: seq<Text>)
    requires Ignored(line) || HasKeyAndValue(line)
    ensures Understood([line] + rest) == [line] + Understood(rest)
  {
    hide Ignored, HasKeyAndValue;
    assert ([line] + rest)[1..] == rest;
  }

  /** An ignored line in front changes no binding. */
  lemma IgnoredFirst(line: Text, rest: seq<Text>, key: Text, v: Text)
    requires LF !in line && Ignored(line)
    ensures FirstBound(Understood([line] + rest), key, v) <==> FirstBound(Understood(rest), key, v)
  {
    hide *;
    UnderstoodStep(line, rest);
    FirstBoundStep(line, Understood(rest), key, v);
    LineMeaning(line, key, v);
    forall u
      ensures !Assigns(line, key, u)
    {
      LineMeaning(line, key, u);
    }
  }

  /** A line key=value in front binds its key, and no other. */
  lemma PlainFirst(k: Text, w: Text, rest: seq<Text>, key: Text, v: Text)
    requires PlainKey(k) && PlainValue(w)
    ensures FirstBound(Understood([k + [EQUALS] + w] + rest), key, v) <==>
            if key == k then v == w else FirstBound(Understood(rest), key, v)
  {
    hide *;
    var line := k + [EQUALS] + w;
    PlainLineAssigns(k, w, key, v);
    UnderstoodStep(line, rest);
    FirstBoundStep(line, Understood(rest), key, v);
    if key == k {
      PlainLineAssigns(k, w, k, w);
    } else {
      forall u
        ensures !Assigns(line, key, u)
      {
        PlainLineAssigns(k, w, key, u);
      }
    }
  }

  lemma PlainLineAssigns(k: Text, w: Text, key: Text, u: Text)
    requires PlainKey(k) && PlainValue(w)
    ensures LF !in k + [EQUALS] + w && HasKeyAndValue(k + [EQUALS] + w)
    ensures Assigns(k + [EQUALS] + w, key, u) <==> key == k && u == w
  {
    hide MeaningOf, HasKeyAndValue, Assigns;
    PlainLineIff(k, w);
    LineMeaning(k + [EQUALS] + w, key, u);
  }

  // ---------- printing and parsing back ----------

  function PrintItem(key: Text, val: Text): Text
  {
    key + [EQUALS] + val + [LF]
  }

  function Print(items: Items, order: seq<Text>): Text
    requires forall k :: k in order ==> k in items
  {
    if order == [] then [] else PrintItem(order[0], items[order[0]]) + Print(items, order[1..])
  }

  lemma ReadPrintedItem(k: Text, v: Text, rest: Text, so: Items)
    requires PlainKey(k) && PlainValue(v)
    ensures ReadLines(Lines(PrintItem(k, v) + rest), so) == ReadLines(Lines(rest), Insert(so, k, v))
  {
    hide MeaningOf, Lines;
    var line := k + [EQUALS] + v;
    assert PrintItem(k, v) + rest == line + [LF] + rest;
    FirstLine(line, rest);
    PlainLineIff(k, v);
    assert ([line] + Lines(rest))[1..] == Lines(rest);
  }

  function Selected(items: Items, order: seq<Text>): Items
    requires forall k :: k in order ==> k in items
  {
    map k | k in order :: items[k]
  }

  lemma SelectOneMore(items: Items, order: seq<Text>, so: Items)
    requires order != [] && forall k :: k in order ==> k in items
    requires forall k :: k in so ==> k in items && so[k] == items[k]
    ensures Insert(so, order[0], items[order[0]]) + Selected(items, order[1..]) == so + Selected(items, order)
  {
    var so' := Insert(so, order[0], items[order[0]]);
    assert forall k :: k in order <==> k == order[0] || k in order[1..];
    assert forall k :: k in so' + Selected(items, order[1..]) <==> k in so + Selected(items, order);
  }

  lemma {:induction false} ReadPrinted(items: Items, order: seq<Text>, so: Items)
    requires forall k :: k in order ==> k in items && PlainKey(k) && PlainValue(items[k])
    requires forall k :: k in so ==> k in items && so[k] == items[k]
    ensures var r := ReadLines(Lines(Print(items, order)), so);
            r.end == Returned(r.items != map[]) && r.items == so + Selected(items, order)
    decreases order
  {
    hide MeaningOf, PlainKey, PlainValue, PrintItem;
    if order == [] {
      assert so + Selected(items, order) == so;
    } else {
      hide Lines, ReadLines, Selected;
      var k, so' := order[0], Insert(so, order[0], items[order[0]]);
      ReadPrintedItem(k, items[k], Print(items, order[1..]), so);
      ReadPrinted(items, order[1..], so');
      SelectOneMore(items, order, so);
    }
  }

  /** Printing a map of plain keys and values, in any order, and parsing the text gives the map back. */
  lemma PrintedMapIsReadBack(items: Items, order: seq<Text>)
    requires forall k :: k in order <==> k in items
    requires forall k :: k in items ==> PlainKey(k) && PlainValue(items[k])
    ensures ReadLines(Lines(Print(items, order)), map[]) == Outcome(Returned(items != map[]), items)
  {
    hide MeaningOf, PlainKey, PlainValue, Lines, ReadLines, Print;
    ReadPrinted(items, order, map[]);
    assert map[] + Selected(items, order) == items;
  }
}
