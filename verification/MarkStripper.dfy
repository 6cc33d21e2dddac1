/**
 `stripHTMLPreserveMark` of `internal/handler/frontend.go`: search snippets are reduced to
 text lines, keeping the tags that highlight matches.
 */
module MarkStripper {
  import opened Text

  const OPEN_MARK := "<mark>"
  const CLOSE_MARK := "</mark>"

  const BLOCK_TAG_COUNT: nat := 13

  /** The tags that end a line, in the order they are tried. */
  function BlockTag(k: nat): string
    requires k < BLOCK_TAG_COUNT
  {
    match k
    case 0 => "</h1>"
    case 1 => "</h2>"
    case 2 => "</h3>"
    case 3 => "</h4>"
    case 4 => "</h5>"
    case 5 => "</h6>"
    case 6 => "</p>"
    case 7 => "</div>"
    case 8 => "</li>"
    case 9 => "</tr>"
    case 10 => "<br>"
    case 11 => "<br/>"
    case _ => "<br />"
  }

  /** `tag` is one of the block tags from the `k`-th on. */
  predicate IsBlockTag(tag: string, k: nat := 0)
    decreases BLOCK_TAG_COUNT - k
  {
    k < BLOCK_TAG_COUNT && (tag == BlockTag(k) || IsBlockTag(tag, k + 1))
  }

  /** The recursion finds exactly the listed tags. */
  lemma {:induction false} BlockTagIsListed(tag: string, k: nat, j: nat)
    requires k <= j < BLOCK_TAG_COUNT && tag == BlockTag(j)
    ensures IsBlockTag(tag, k)
    decreases j - k
  {
    if k < j {
      BlockTagIsListed(tag, k + 1, j);
    }
  }

  /** `strings.ToLower`, as far as the tags above can tell. */
  function LowerChar(c: char): char
  {
    if 'A' <= c <= 'Z' then (c as int + 32) as char else c
  }

  function Lower(s: string): string
  {
    seq(|s|, i requires 0 <= i < |s| => LowerChar(s[i]))
  }

  /** The length of `s` up to its first `>`, included, or of all of `s`. */
  function TagLength(s: string): (n: nat)
    ensures n <= |s| && (s != "" ==> n > 0)
  {
    if s == "" then 0 else if s[0] == '>' then 1 else 1 + TagLength(s[1..])
  }

  // ---------- The function computed ----------

  predicate HasTag(s: string, tag: string)
  {
    |tag| <= |s| && Lower(s[..|tag|]) == tag
  }

  /** What a tag leaves in the text. */
  function Residue(tag: string): string
  {
    if tag == OPEN_MARK then OPEN_MARK
    else if tag == CLOSE_MARK then CLOSE_MARK
    else if IsBlockTag(tag) then "\n"
    else ""
  }

  function Scan(s: string): string
  {
    if s == "" then ""
    else if s[0] == '<' then Residue(Lower(s[..TagLength(s)])) + Scan(s[TagLength(s)..])
    else [s[0]] + Scan(s[1..])
  }

  /** Where the first `>` stands, or the length of `s`. */
  function FirstClose(s: string): (n: nat)
    ensures n <= |s| && Free(s[..n], '>') && (n < |s| ==> s[n] == '>')
  {
    if s == "" || s[0] == '>' then 0 else
      var n := FirstClose(s[1..]);
      assert forall i :: 0 < i < n + 1 ==> s[i] == s[1..][..n][i - 1];
      n + 1
  }

  /** Without the tail of a tag that the snippet starts inside of. */
  function AfterFragment(s: string): string
  {
    var n := FirstClose(s);
    if n < |s| && '<' !in s[..n] then s[n + 1..] else s
  }

  function TrimLeft(s: string): string
  {
    if s != "" && IsSpace(s[0]) then TrimLeft(s[1..]) else s
  }

  function TrimRight(s: string): string
  {
    if s != "" && IsSpace(s[|s| - 1]) then TrimRight(s[..|s| - 1]) else s
  }

  function TrimSpace(s: string): string
  {
    TrimRight(TrimLeft(s))
  }

  function CleanLines(lines: seq<string>): seq<string>
  {
    if lines == [] then [] else
      var last := TrimSpace(lines[|lines| - 1]);
      CleanLines(lines[..|lines| - 1]) + (if last != "" then [last] else [])
  }

  function JoinLines(lines: seq<string>): string
  {
    if lines == [] then ""
    else if |lines| == 1 then lines[0]
    else lines[0] + "<br>" + JoinLines(lines[1..])
  }

  function Stripped(s: string): string
  {
    JoinLines(CleanLines(Split(Scan(AfterFragment(s)), '\n')))
  }

  // ---------- The method ----------

  lemma Assoc<T>(a: seq<T>, b: seq<T>, c: seq<T>)
    ensures a + b + c == a + (b + c)
  {
  }

  /** Each tag looked for holds one `>`, at its end. */
  lemma TagEndsAtClose(s: string, tag: string)
    requires tag != "" && tag[|tag| - 1] == '>' && Free(tag[..|tag| - 1], '>')
    ensures HasTag(s, tag) <==> Lower(s[..TagLength(s)]) == tag
  {
    TagLengthIs(s);
    var n := TagLength(s);
    if HasTag(s, tag) {
      assert forall i :: 0 <= i < |tag| ==> LowerChar(s[i]) == Lower(s[..|tag|])[i] == tag[i];
      assert forall i :: 0 <= i < |tag| - 1 ==> tag[i] == tag[..|tag| - 1][i];
      assert n == |tag|;
    }
    if Lower(s[..n]) == tag {
      assert n == |tag|;
    }
  }

  lemma {:induction false} TagLengthIs(s: string)
    ensures var n := TagLength(s);
            && (forall i :: 0 <= i < n - 1 ==> s[i] != '>')
            && (n == |s| || (n > 0 && s[n - 1] == '>'))
  {
    if s != "" && s[0] != '>' {
      TagLengthIs(s[1..]);
      assert forall i :: 0 < i < TagLength(s) ==> s[i] == s[1..][i - 1];
    }
  }

  lemma KnownTags(s: string)
    ensures HasTag(s, OPEN_MARK) <==> Lower(s[..TagLength(s)]) == OPEN_MARK
    ensures HasTag(s, CLOSE_MARK) <==> Lower(s[..TagLength(s)]) == CLOSE_MARK
  {
    TagEndsAtClose(s, OPEN_MARK);
    TagEndsAtClose(s, CLOSE_MARK);
  }

  lemma BlockTagAt(s: string, k: nat)
    requires k < BLOCK_TAG_COUNT
    ensures HasTag(s, BlockTag(k)) <==> Lower(s[..TagLength(s)]) == BlockTag(k)
  {
    TagEndsAtClose(s, BlockTag(k));
  }

  /** The length of the block tag that `s` starts with, or zero. */
  method FindBlockTag(s: string) returns (length: nat)
    ensures if IsBlockTag(Lower(s[..TagLength(s)])) then length == TagLength(s) > 0 else length == 0
  {
    ghost var tag := Lower(s[..TagLength(s)]);
    for k := 0 to BLOCK_TAG_COUNT
      invariant IsBlockTag(tag) <==> IsBlockTag(tag, k)
    {
      BlockTagAt(s, k);
      if HasTag(s, BlockTag(k)) {
        BlockTagIsListed(tag, 0, k);
        assert |tag| == TagLength(s);
        return |BlockTag(k)|;
      }
    }
    return 0;
  }

  /** From a `<`, the index after the next `>`, or the end. */
  method SkipTag(s: string) returns (i: nat)
    requires s != "" && s[0] == '<'
    ensures i == TagLength(s)
  {
    i := 0;
    while i < |s| && s[i] != '>'
      invariant i <= |s| && TagLength(s) == i + TagLength(s[i..])
    {
      assert s[i..][1..] == s[i + 1..];
      i := i + 1;
    }
    if i < |s| {
      i := i + 1;
    }
  }

  /** The scan of `rest` writes `piece` for its first `length` characters. */
  ghost predicate IsPiece(rest: string, piece: string, length: nat)
  {
    0 < length <= |rest| && Scan(rest) == piece + Scan(rest[length..])
  }

  /** One turn of the scan: what it writes, and how much of the rest it consumes. */
  method NextPiece(rest: string) returns (piece: string, length: nat)
    requires rest != ""
    ensures IsPiece(rest, piece, length)
  {
    if rest[0] != '<' {
      return [rest[0]], 1;
    }
    KnownTags(rest);
    assert |Lower(rest[..TagLength(rest)])| == TagLength(rest);
    if HasTag(rest, OPEN_MARK) {
      return OPEN_MARK, 6;
    }
    if HasTag(rest, CLOSE_MARK) {
      return CLOSE_MARK, 7;
    }
    length := FindBlockTag(rest);
    if length > 0 {
      return "\n", length;
    }
    length := SkipTag(rest);
    piece := "";
  }

  /** What is written, and the scan of what is left, make up the scan of the whole. */
  ghost predicate Written(s: string, i: int, result: string)
  {
    0 <= i <= |s| && result + Scan(s[i..]) == Scan(s)
  }

  lemma WritePiece(s: string, i: int, result: string, piece: string, length: nat)
    requires Written(s, i, result) && IsPiece(s[i..], piece, length)
    ensures i + length <= |s| && Written(s, i + length, result + piece)
  {
    assert s[i..][length..] == s[i + length..];
    Assoc(result, piece, Scan(s[i + length..]));
  }

  lemma AllWritten(s: string, result: string)
    requires Written(s, |s|, result)
    ensures result == Scan(s)
  {
    assert result + "" == result;
  }

  lemma NoneWritten(s: string)
    ensures Written(s, 0, "")
  {
    assert s[0..] == s && "" + Scan(s) == Scan(s);
  }

  /** The body of the scanning loop. */
  method WriteNext(s: string, i: nat, result: string) returns (i': nat, result': string)
    requires Written(s, i, result) && i < |s|
    ensures Written(s, i', result') && i < i' <= |s|
  {
    var piece, length := NextPiece(s[i..]);
    WritePiece(s, i, result, piece, length);
    return i + length, result + piece;
  }

  method ScanTags(s: string) returns (result: string)
    ensures result == Scan(s)
  {
    result := "";
    var i := 0;
    NoneWritten(s);
    while i < |s|
      invariant i <= |s| && Written(s, i, result)
    {
      i, result := WriteNext(s, i, result);
    }
    AllWritten(s, result);
  }

  /** Trims each line and drops the empty ones. */
  method CleanAll(lines: seq<string>) returns (cleanLines: seq<string>)
    ensures cleanLines == CleanLines(lines)
  {
    cleanLines := [];
    for n := 0 to |lines|
      invariant cleanLines == CleanLines(lines[..n])
    {
      assert lines[..n + 1][..n] == lines[..n];
      var trimmed := TrimSpace(lines[n]);
      if trimmed != "" {
        cleanLines := cleanLines + [trimmed];
      }
    }
    assert lines[..|lines|] == lines;
  }

  method StripHTMLPreserveMark(s: string) returns (html: string)
    ensures html == Stripped(s)
  {
    var idx := FirstClose(s);
    var body := if idx < |s| && '<' !in s[..idx] then s[idx + 1..] else s;
    assert body == AfterFragment(s);
    var text := ScanTags(body);
    var cleanLines := CleanAll(Split(text, '\n'));
    return JoinLines(cleanLines);
  }

  // ---------- What must come through ----------

  /** A character of text, a highlight tag, or the end of a line. */
  datatype Item = Letter(c: char) | Mark(opens: bool) | Break

  /** The tags that end a line. */
  const LINE_TAGS: set<string> :=
    {"</h1>", "</h2>", "</h3>", "</h4>", "</h5>", "</h6>", "</p>", "</div>", "</li>", "</tr>", "<br>", "<br/>", "<br />"}

  /** `tag` is `name`, with any of its letters in upper case. */
  ghost predicate Spells(tag: string, name: string)
  {
    && |tag| == |name|
    && forall i :: 0 <= i < |tag| ==>
         tag[i] == name[i] || ('A' <= tag[i] <= 'Z' && tag[i] as int - 'A' as int == name[i] as int - 'a' as int)
  }

  ghost predicate EndsLine(tag: string)
  {
    exists name :: name in LINE_TAGS && Spells(tag, name)
  }

  /** The text outside tags, the highlight tags and the line ends, in order. */
  ghost function Flow(s: string): seq<Item>
  {
    if s == "" then []
    else if s[0] == '<' then TagItem(s[..TagLength(s)]) + Flow(s[TagLength(s)..])
    else CharItem(s[0]) + Flow(s[1..])
  }

  ghost function TagItem(tag: string): seq<Item>
  {
    if Spells(tag, "<mark>") then [Mark(true)]
    else if Spells(tag, "</mark>") then [Mark(false)]
    else if EndsLine(tag) then [Break]
    else []
  }

  ghost function CharItem(c: char): seq<Item>
  {
    if c == '\n' then [Break] else [Letter(c)]
  }

  /** What stands between the line ends. */
  ghost function Pieces(f: seq<Item>): (pieces: seq<seq<Item>>)
    ensures pieces != []
  {
    if f == [] then [[]]
    else if f[0] == Break then [[]] + Pieces(f[1..])
    else var rest := Pieces(f[1..]); [[f[0]] + rest[0]] + rest[1..]
  }

  ghost function NonEmpty(pieces: seq<seq<Item>>): seq<seq<Item>>
  {
    if pieces == [] then [] else
      var last := pieces[|pieces| - 1];
      NonEmpty(pieces[..|pieces| - 1]) + (if last != [] then [last] else [])
  }

  ghost predicate IsBlank(item: Item)
  {
    item.Letter? && IsSpace(item.c)
  }

  ghost function TrimItemsLeft(f: seq<Item>): seq<Item>
  {
    if f != [] && IsBlank(f[0]) then TrimItemsLeft(f[1..]) else f
  }

  ghost function TrimItemsRight(f: seq<Item>): seq<Item>
  {
    if f != [] && IsBlank(f[|f| - 1]) then TrimItemsRight(f[..|f| - 1]) else f
  }

  /** A line without the blanks at its ends. */
  ghost function TrimItems(f: seq<Item>): seq<Item>
  {
    TrimItemsRight(TrimItemsLeft(f))
  }

  ghost function Each<T, U>(f: T -> U, s: seq<T>): seq<U>
  {
    seq(|s|, i requires 0 <= i < |s| => f(s[i]))
  }

  /** The lines of a text, each with its characters and highlight tags. */
  ghost function RawLines(s: string): seq<seq<Item>>
  {
    Pieces(Flow(s))
  }

  ghost function TrimmedFull(lines: seq<seq<Item>>): seq<seq<Item>>
  {
    NonEmpty(Each(TrimItems, lines))
  }

  /** Its lines trimmed, without those that hold nothing; if none is left, one empty line. */
  ghost function CleanedLines(s: string): seq<seq<Item>>
  {
    var full := TrimmedFull(RawLines(s));
    if full == [] then [[]] else full
  }

  /** One of the tags that may stand in a text. */
  ghost predicate IsOutputTag(tag: string)
  {
    tag == OPEN_MARK || tag == CLOSE_MARK || tag == "<br>"
  }

  /** `t` is plain characters and whole output tags, with `<br>` only if `lined`. */
  ghost predicate Tagged(t: string, lined: bool)
  {
    t == "" ||
    if t[0] == '<' then
      && IsOutputTag(t[..TagLength(t)])
      && (!lined ==> t[..TagLength(t)] != "<br>")
      && Tagged(t[TagLength(t)..], lined)
    else Tagged(t[1..], lined)
  }

  /** An output tag in front is read as that tag. */
  lemma TagInFront(tag: string, x: string)
    requires IsOutputTag(tag)
    ensures TagLength(tag + x) == |tag| && (tag + x)[..|tag|] == tag && (tag + x)[|tag|..] == x
    ensures tag[0] == '<' && Lower(tag) == tag && Free(tag, '\n')
  {
    TagLengthIs(tag + x);
    assert tag[|tag| - 1] == '>' && forall i :: 0 <= i < |tag| - 1 ==> tag[i] != '>';
    assert forall i :: 0 <= i < |tag| ==> (tag + x)[i] == tag[i];
  }

  lemma FlowOfTag(tag: string, x: string)
    requires IsOutputTag(tag)
    ensures Flow(tag + x) == TagItem(tag) + Flow(x)
  {
    TagInFront(tag, x);
  }

  lemma FlowOfChar(c: char, x: string)
    requires c != '<'
    ensures Flow([c] + x) == CharItem(c) + Flow(x)
  {
    assert ([c] + x)[1..] == x;
  }

  lemma TaggedTag(tag: string, x: string, lined: bool)
    requires IsOutputTag(tag)
    ensures Tagged(tag + x, lined) <==> (tag == "<br>" ==> lined) && Tagged(x, lined)
  {
    TagInFront(tag, x);
  }

  lemma TaggedChar(c: char, x: string, lined: bool)
    requires c != '<'
    ensures Tagged([c] + x, lined) <==> Tagged(x, lined)
  {
    assert ([c] + x)[1..] == x;
  }

  lemma FlowAppendsTag(tag: string, x: string, b: string)
    requires IsOutputTag(tag) && Flow(x + b) == Flow(x) + Flow(b)
    ensures Flow(tag + x + b) == Flow(tag + x) + Flow(b)
  {
    FlowOfTag(tag, x);
    FlowOfTag(tag, x + b);
    Assoc(tag, x, b);
    Assoc(TagItem(tag), Flow(x), Flow(b));
  }

  lemma FlowAppendsChar(c: char, x: string, b: string)
    requires c != '<' && Flow(x + b) == Flow(x) + Flow(b)
    ensures Flow([c] + x + b) == Flow([c] + x) + Flow(b)
  {
    FlowOfChar(c, x);
    FlowOfChar(c, x + b);
    Assoc([c], x, b);
    Assoc(CharItem(c), Flow(x), Flow(b));
  }

  /** The first tag or character of a tagged text, and the tagged text after it. */
  lemma SplitFirst(t: string, lined: bool) returns (head: string, rest: string)
    requires Tagged(t, lined) && t != ""
    ensures t == head + rest && |rest| < |t| && Tagged(rest, lined)
    ensures IsOutputTag(head) || exists c :: c != '<' && head == [c]
  {
    var n := if t[0] == '<' then TagLength(t) else 1;
    head, rest := t[..n], t[n..];
    if t[0] != '<' { assert head == [t[0]]; }
  }

  /** Induction over a tagged text: whole tags, or single characters, in front. */
  lemma {:induction false} FlowAppends(a: string, b: string, lined: bool)
    requires Tagged(a, lined)
    ensures Flow(a + b) == Flow(a) + Flow(b)
    decreases |a|
  {
    if a == "" {
      assert a + b == b;
    } else {
      var head, x := SplitFirst(a, lined);
      FlowAppends(x, b, lined);
      if IsOutputTag(head) {
        FlowAppendsTag(head, x, b);
      } else {
        FlowAppendsChar(head[0], x, b);
      }
    }
  }

  lemma {:induction false} TaggedAppends(a: string, b: string, lined: bool)
    requires Tagged(a, lined) && Tagged(b, lined)
    ensures Tagged(a + b, lined)
    decreases |a|
  {
    if a == "" {
      assert a + b == b;
    } else {
      var head, x := SplitFirst(a, lined);
      TaggedAppends(x, b, lined);
      Assoc(head, x, b);
      if IsOutputTag(head) {
        TaggedTag(head, x, lined);
        TaggedTag(head, x + b, lined);
      } else {
        TaggedChar(head[0], x + b, lined);
      }
    }
  }

  lemma {:induction false} TaggedLines(t: string)
    requires Tagged(t, false)
    ensures Tagged(t, true)
    decreases |t|
  {
    if t != "" {
      TaggedLines(if t[0] == '<' then t[TagLength(t)..] else t[1..]);
    }
  }

  // ---------- The scan ----------

  lemma LowerIsSpelled(tag: string, name: string)
    requires forall i :: 0 <= i < |name| ==> !('A' <= name[i] <= 'Z')
    ensures Lower(tag) == name <==> Spells(tag, name)
  {
    if Lower(tag) == name {
      forall i | 0 <= i < |tag|
        ensures tag[i] == name[i] || ('A' <= tag[i] <= 'Z' && tag[i] as int - 'A' as int == name[i] as int - 'a' as int)
      {
        assert Lower(tag)[i] == LowerChar(tag[i]);
      }
    }
  }

  lemma {:induction false} BlockTagsAreLineTags(tag: string, k: nat)
    requires IsBlockTag(tag, k)
    ensures tag in LINE_TAGS
    decreases BLOCK_TAG_COUNT - k
  {
    if tag != BlockTag(k) {
      BlockTagsAreLineTags(tag, k + 1);
    }
  }

  lemma LineTagsAreBlockTags(tag: string) returns (k: nat)
    requires tag in LINE_TAGS
    ensures k < BLOCK_TAG_COUNT && tag == BlockTag(k)
  {
    k := if tag == "</h1>" then 0 else if tag == "</h2>" then 1 else if tag == "</h3>" then 2
         else if tag == "</h4>" then 3 else if tag == "</h5>" then 4 else if tag == "</h6>" then 5
         else if tag == "</p>" then 6 else if tag == "</div>" then 7 else if tag == "</li>" then 8
         else if tag == "</tr>" then 9 else if tag == "<br>" then 10 else if tag == "<br/>" then 11 else 12;
  }

  lemma LineTagIsLower(name: string, i: nat)
    requires name in LINE_TAGS && i < |name|
    ensures !('A' <= name[i] <= 'Z')
  {
  }

  /** The scanner's search for a block tag finds exactly the tags that end a line, in any case. */
  lemma BlockTagEndsLine(tag: string)
    ensures IsBlockTag(Lower(tag)) <==> EndsLine(tag)
  {
    if IsBlockTag(Lower(tag)) {
      BlockTagsAreLineTags(Lower(tag), 0);
      forall i | 0 <= i < |Lower(tag)| ensures !('A' <= Lower(tag)[i] <= 'Z') { LineTagIsLower(Lower(tag), i); }
      LowerIsSpelled(tag, Lower(tag));
    }
    if EndsLine(tag) {
      var name :| name in LINE_TAGS && Spells(tag, name);
      forall i | 0 <= i < |name| ensures !('A' <= name[i] <= 'Z') { LineTagIsLower(name, i); }
      LowerIsSpelled(tag, name);
      var k := LineTagsAreBlockTags(name);
      BlockTagIsListed(name, 0, k);
    }
  }

  /** What a tag leaves reads as that tag does. */
  lemma ResidueKeepsFlow(tag: string, x: string)
    requires Tagged(x, false)
    ensures Tagged(Residue(Lower(tag)) + x, false)
    ensures Flow(Residue(Lower(tag)) + x) == TagItem(tag) + Flow(x)
  {
    LowerIsSpelled(tag, "<mark>");
    LowerIsSpelled(tag, "</mark>");
    BlockTagEndsLine(tag);
    if Lower(tag) == OPEN_MARK || Lower(tag) == CLOSE_MARK {
      FlowOfTag(Lower(tag), x);
      TaggedTag(Lower(tag), x, false);
    } else if IsBlockTag(Lower(tag)) {
      FlowOfChar('\n', x);
      TaggedChar('\n', x, false);
    } else {
      assert "" + x == x;
    }
  }

  lemma {:induction false} ScanKeepsFlow(s: string)
    ensures Tagged(Scan(s), false) && Flow(Scan(s)) == Flow(s)
    decreases |s|
  {
    if s != "" && s[0] == '<' {
      var n := TagLength(s);
      ScanKeepsFlow(s[n..]);
      ResidueKeepsFlow(s[..n], Scan(s[n..]));
    } else if s != "" {
      ScanKeepsFlow(s[1..]);
      FlowOfChar(s[0], Scan(s[1..]));
      TaggedChar(s[0], Scan(s[1..]), false);
    }
  }

  // ---------- The lines ----------

  /** A line before joining: no `<br>` and no line break. */
  ghost predicate PlainLine(line: string)
  {
    Tagged(line, false) && Free(line, '\n')
  }

  ghost predicate AllPlain(lines: seq<string>)
  {
    forall i :: 0 <= i < |lines| ==> PlainLine(lines[i])
  }

  lemma EachCons<T, U>(f: T -> U, x: T, s: seq<T>)
    ensures Each(f, [x] + s) == [f(x)] + Each(f, s)
  {
  }

  lemma EachSnoc<T, U>(f: T -> U, s: seq<T>, x: T)
    ensures Each(f, s + [x]) == Each(f, s) + [f(x)]
  {
  }

  ghost function Flows(lines: seq<string>): seq<seq<Item>>
  {
    Each(Flow, lines)
  }

  ghost function JoinFlows(flows: seq<seq<Item>>): seq<Item>
  {
    if flows == [] then []
    else if |flows| == 1 then flows[0]
    else flows[0] + ([Break] + JoinFlows(flows[1..]))
  }

  lemma FlowsCons(line: string, lines: seq<string>)
    ensures Flows([line] + lines) == [Flow(line)] + Flows(lines)
  {
    EachCons(Flow, line, lines);
  }

  lemma AllPlainCons(line: string, lines: seq<string>)
    ensures AllPlain([line] + lines) <==> PlainLine(line) && AllPlain(lines)
  {
    var all := [line] + lines;
    if AllPlain(all) {
      assert all[0] == line && forall i :: 0 <= i < |lines| ==> lines[i] == all[i + 1];
    }
  }

  lemma JoinFlowsLengthen(head: seq<Item>, first: seq<Item>, others: seq<seq<Item>>)
    ensures JoinFlows([head + first] + others) == head + JoinFlows([first] + others)
  {
    var a, b := [head + first] + others, [first] + others;
    assert a[1..] == others && b[1..] == others;
    if others != [] {
      Assoc(head, first, [Break] + JoinFlows(others));
    }
  }

  lemma SplitAfterChar(c: char, y: string, sep: char)
    requires c != sep
    ensures Split([c] + y, sep) == [[c] + Split(y, sep)[0]] + Split(y, sep)[1..]
  {
    assert ([c] + y)[1..] == y;
  }

  lemma {:induction false} SplitAfter(head: string, x: string, sep: char)
    requires Free(head, sep)
    ensures Split(head + x, sep) == [head + Split(x, sep)[0]] + Split(x, sep)[1..]
  {
    if head == "" {
      assert head + x == x && head + Split(x, sep)[0] == Split(x, sep)[0];
    } else {
      assert Free(head[1..], sep) by { assert forall i :: 0 <= i < |head[1..]| ==> head[1..][i] == head[i + 1]; }
      SplitAfter(head[1..], x, sep);
      SplitAfterChar(head[0], head[1..] + x, sep);
      assert head == [head[0]] + head[1..];
      Assoc([head[0]], head[1..], x);
      Assoc([head[0]], head[1..], Split(x, sep)[0]);
    }
  }

  /** The text is its lines, joined by line ends. */
  ghost predicate IsItsLines(t: string)
  {
    AllPlain(Split(t, '\n')) && JoinFlows(Flows(Split(t, '\n'))) == Flow(t)
  }

  /** Lengthening the first of some lines by a plain piece. */
  lemma LengthenLines(head: string, first: string, others: seq<string>)
    requires PlainLine(head) && AllPlain([first] + others)
    ensures AllPlain([head + first] + others)
    ensures JoinFlows(Flows([head + first] + others)) == Flow(head) + JoinFlows(Flows([first] + others))
  {
    FlowsCons(first, others);
    FlowsCons(head + first, others);
    AllPlainCons(first, others);
    AllPlainCons(head + first, others);
    TaggedAppends(head, first, false);
    FlowAppends(head, first, false);
    JoinFlowsLengthen(Flow(head), Flow(first), Flows(others));
  }

  /** A plain piece in front lengthens the first line. */
  lemma LengthenFirstLine(head: string, x: string)
    requires PlainLine(head) && IsItsLines(x)
    ensures IsItsLines(head + x)
  {
    var first, others := Split(x, '\n')[0], Split(x, '\n')[1..];
    assert Split(x, '\n') == [first] + others;
    SplitAfter(head, x, '\n');
    LengthenLines(head, first, others);
    FlowAppends(head, x, false);
  }

  lemma TagAlone(tag: string)
    requires IsOutputTag(tag) && tag != "<br>"
    ensures PlainLine(tag)
  {
    TagInFront(tag, "");
    TaggedTag(tag, "", false);
    assert tag + "" == tag;
  }

  lemma CharAlone(c: char)
    requires c != '<' && c != '\n'
    ensures PlainLine([c])
  {
    TaggedChar(c, "", false);
    assert [c] + "" == [c];
  }

  lemma OneEmptyLine()
    ensures IsItsLines("")
  {
    FlowsCons("", []);
    AllPlainCons("", []);
    assert [""] + [] == [""] && [Flow("")] + Flows([]) == [[]];
  }

  lemma BreakInFront(x: string)
    requires IsItsLines(x)
    ensures IsItsLines(['\n'] + x)
  {
    FlowOfChar('\n', x);
    var lines := Split(x, '\n');
    assert (['\n'] + x)[1..] == x;
    FlowsCons("", lines);
    AllPlainCons("", lines);
    var flows := [[]] + Flows(lines);
    assert flows[1..] == Flows(lines);
    assert [] + ([Break] + Flow(x)) == [Break] + Flow(x);
  }

  lemma {:induction false} ScannedIsItsLines(t: string)
    requires Tagged(t, false)
    ensures IsItsLines(t)
    decreases |t|
  {
    if t == "" {
      OneEmptyLine();
    } else if t[0] == '<' {
      var tag, x := t[..TagLength(t)], t[TagLength(t)..];
      ScannedIsItsLines(x);
      TagAlone(tag);
      assert t == tag + x;
      LengthenFirstLine(tag, x);
    } else if t[0] == '\n' {
      ScannedIsItsLines(t[1..]);
      BreakInFront(t[1..]);
      assert t == ['\n'] + t[1..];
    } else {
      ScannedIsItsLines(t[1..]);
      CharAlone(t[0]);
      assert t == [t[0]] + t[1..];
      LengthenFirstLine([t[0]], t[1..]);
    }
  }

  // ---------- Trimming ----------

  lemma CharItemFirst(c: char, rest: string)
    requires c != '<' && c != '\n'
    ensures Flow([c] + rest) == [Letter(c)] + Flow(rest)
  {
    FlowOfChar(c, rest);
  }

  lemma MarkItemFirst(tag: string, rest: string)
    requires tag == "<mark>" || tag == "</mark>"
    ensures Flow(tag + rest) != [] && Flow(tag + rest)[0].Mark? && (tag + rest)[0] == '<'
  {
    FlowOfTag(tag, rest);
    MarkItem(tag);
  }

  /** A plain line starts with a highlight tag or a character. */
  lemma SplitPlain(s: string) returns (head: string, rest: string)
    requires PlainLine(s) && s != ""
    ensures s == head + rest && |rest| < |s| && PlainLine(rest)
    ensures head == "<mark>" || head == "</mark>" || (|head| == 1 && head[0] != '<' && head[0] != '\n')
  {
    head, rest := SplitFirst(s, false);
    assert forall i :: 0 <= i < |rest| ==> rest[i] == s[i + |head|];
    if IsOutputTag(head) { TaggedTag(head, rest, false); } else { assert head[0] == s[0]; }
  }

  /** The first item of a plain line is its first character or highlight tag. */
  lemma FirstItem(s: string)
    requires PlainLine(s) && s != ""
    ensures Flow(s) != [] && (IsBlank(Flow(s)[0]) <==> IsSpace(s[0]))
  {
    var head, rest := SplitPlain(s);
    if |head| == 1 {
      assert head == [head[0]];
      CharItemFirst(head[0], rest);
    } else {
      MarkItemFirst(head, rest);
    }
  }

  lemma MarkItem(tag: string)
    requires tag == "<mark>" || tag == "</mark>"
    ensures |TagItem(tag)| == 1 && TagItem(tag)[0].Mark?
  {
    assert Spells(tag, tag);
  }

  lemma {:induction false} TrimLeftKeepsFlow(s: string)
    requires PlainLine(s)
    ensures PlainLine(TrimLeft(s)) && Flow(TrimLeft(s)) == TrimItemsLeft(Flow(s))
  {
    if s == "" {
    } else if IsSpace(s[0]) {
      var rest := s[1..];
      assert s == [s[0]] + rest && forall i :: 0 <= i < |rest| ==> rest[i] == s[i + 1];
      CharItemFirst(s[0], rest);
      TrimLeftKeepsFlow(rest);
      assert Flow(s)[1..] == Flow(rest);
    } else {
      FirstItem(s);
    }
  }

  /** A blank is never inside a tag, so it can be cut off the end. */
  lemma {:induction false} TaggedBeforeSpace(a: string, c: char)
    requires Tagged(a + [c], false) && IsSpace(c)
    ensures Tagged(a, false)
    decreases |a|
  {
    var s := a + [c];
    if a != "" && a[0] == '<' {
      var n := TagLength(s);
      TagLengthIs(s);
      assert s[..n][n - 1] == '>';
      assert n <= |a| && s[..n] == a[..n] && s[n..] == a[n..] + [c];
      TaggedBeforeSpace(a[n..], c);
      TagInFront(a[..n], a[n..]);
      assert a == a[..n] + a[n..];
    } else if a != "" {
      assert s[1..] == a[1..] + [c];
      TaggedBeforeSpace(a[1..], c);
    }
  }

  lemma CharAsLine(c: char)
    requires c != '<' && c != '\n'
    ensures Flow([c]) == [Letter(c)]
  {
    CharItemFirst(c, "");
    assert [c] + "" == [c];
  }

  lemma MarkAsLine(tag: string)
    requires tag == "<mark>" || tag == "</mark>"
    ensures Flow(tag) == TagItem(tag)
  {
    FlowOfTag(tag, "");
    assert tag + "" == tag;
  }

  lemma LastItemOfOne(head: string)
    requires head == "<mark>" || head == "</mark>" || (|head| == 1 && head[0] != '<' && head[0] != '\n')
    requires !IsSpace(head[|head| - 1])
    ensures Flow(head) != [] && !IsBlank(Flow(head)[|Flow(head)| - 1])
  {
    if |head| == 1 {
      assert head == [head[0]];
      CharAsLine(head[0]);
    } else {
      MarkAsLine(head);
      MarkItem(head);
    }
  }

  lemma LastItemOfRest(head: string, rest: string)
    requires head == "<mark>" || head == "</mark>" || (|head| == 1 && head[0] != '<' && head[0] != '\n')
    requires Flow(rest) != []
    ensures Flow(head + rest) != [] && Flow(head + rest)[|Flow(head + rest)| - 1] == Flow(rest)[|Flow(rest)| - 1]
  {
    if |head| == 1 {
      assert head == [head[0]];
      CharAlone(head[0]);
    } else {
      TagAlone(head);
    }
    LastOfAppended(head, rest);
  }

  lemma LastOfAppended(head: string, rest: string)
    requires Tagged(head, false) && Flow(rest) != []
    ensures Flow(head + rest) != [] && Flow(head + rest)[|Flow(head + rest)| - 1] == Flow(rest)[|Flow(rest)| - 1]
  {
    FlowAppends(head, rest, false);
    var a, b := Flow(head), Flow(rest);
    assert (a + b)[|a + b| - 1] == b[|b| - 1];
  }

  /** A plain line that does not end in a blank does not end in a blank item. */
  lemma {:induction false} LastItem(s: string)
    requires PlainLine(s) && s != "" && !IsSpace(s[|s| - 1])
    ensures Flow(s) != [] && !IsBlank(Flow(s)[|Flow(s)| - 1])
    decreases |s|
  {
    var head, rest := SplitPlain(s);
    if rest == "" {
      assert s == head;
      LastItemOfOne(head);
    } else {
      assert rest[|rest| - 1] == s[|s| - 1];
      LastItem(rest);
      LastItemOfRest(head, rest);
    }
  }

  lemma BlankLast(a: string, c: char)
    requires PlainLine(a + [c]) && IsSpace(c)
    ensures PlainLine(a) && Flow(a + [c]) == Flow(a) + [Letter(c)]
  {
    TaggedBeforeSpace(a, c);
    FlowAppends(a, [c], false);
    assert (a + [c])[|a|] == c && forall i :: 0 <= i < |a| ==> a[i] == (a + [c])[i];
    CharItemFirst(c, "");
    assert [c] + "" == [c];
  }

  lemma {:induction false} TrimRightKeepsFlow(s: string)
    requires PlainLine(s)
    ensures PlainLine(TrimRight(s)) && Flow(TrimRight(s)) == TrimItemsRight(Flow(s))
  {
    if s == "" {
    } else if IsSpace(s[|s| - 1]) {
      var a, c := s[..|s| - 1], s[|s| - 1];
      assert s == a + [c];
      BlankLast(a, c);
      TrimRightKeepsFlow(a);
      assert Flow(s)[..|Flow(s)| - 1] == Flow(a);
    } else {
      LastItem(s);
    }
  }

  lemma TrimKeepsFlow(s: string)
    requires PlainLine(s)
    ensures PlainLine(TrimSpace(s)) && Flow(TrimSpace(s)) == TrimItems(Flow(s))
    ensures TrimSpace(s) == "" <==> TrimItems(Flow(s)) == []
  {
    TrimLeftKeepsFlow(s);
    TrimRightKeepsFlow(TrimLeft(s));
    if TrimSpace(s) != "" { FirstItem(TrimSpace(s)); }
  }

  lemma TrimmedFullSnoc(lines: seq<seq<Item>>, line: seq<Item>)
    ensures TrimmedFull(lines + [line]) == TrimmedFull(lines) + (if TrimItems(line) != [] then [TrimItems(line)] else [])
  {
    var all := Each(TrimItems, lines + [line]);
    EachSnoc(TrimItems, lines, line);
    assert all[..|lines|] == Each(TrimItems, lines);
  }

  /** Trimming the last line, and dropping it if nothing is left. */
  lemma CleanLast(before: seq<string>, clean: seq<string>, line: string)
    requires AllPlain(clean) && PlainLine(line) && Flows(clean) == TrimmedFull(Flows(before))
    ensures var last := TrimSpace(line);
            var all := clean + (if last != "" then [last] else []);
            AllPlain(all) && Flows(all) == TrimmedFull(Flows(before + [line]))
  {
    TrimKeepsFlow(line);
    EachSnoc(Flow, before, line);
    EachSnoc(Flow, clean, TrimSpace(line));
    TrimmedFullSnoc(Flows(before), Flow(line));
    assert clean + [] == clean;
  }

  /** The cleaned lines are the trimmed lines that hold something. */
  lemma {:induction false} CleanLinesKeepFlows(lines: seq<string>)
    requires AllPlain(lines)
    ensures AllPlain(CleanLines(lines)) && Flows(CleanLines(lines)) == TrimmedFull(Flows(lines))
  {
    if lines != [] {
      var n := |lines| - 1;
      CleanLinesKeepFlows(lines[..n]);
      CleanLast(lines[..n], CleanLines(lines[..n]), lines[n]);
      assert lines == lines[..n] + [lines[n]];
    }
  }

  // ---------- Joining ----------

  lemma {:induction false} JoinKeepsFlow(lines: seq<string>)
    requires AllPlain(lines)
    ensures Tagged(JoinLines(lines), true) && Flow(JoinLines(lines)) == JoinFlows(Flows(lines))
  {
    if lines != [] {
      var first, rest := lines[0], lines[1..];
      assert lines == [first] + rest;
      FlowsCons(first, rest);
      AllPlainCons(first, rest);
      TaggedLines(first);
      var flows := [Flow(first)] + Flows(rest);
      assert flows[1..] == Flows(rest);
      if rest != [] {
        JoinKeepsFlow(rest);
        JoinOne(first, JoinLines(rest));
      }
    }
  }

  lemma BreakItem()
    ensures TagItem("<br>") == [Break]
  {
    assert Spells("<br>", "<br>") && "<br>" in LINE_TAGS;
  }

  lemma JoinOne(first: string, tail: string)
    requires Tagged(first, true) && Tagged(tail, true)
    ensures Tagged(first + "<br>" + tail, true)
    ensures Flow(first + "<br>" + tail) == Flow(first) + ([Break] + Flow(tail))
  {
    FlowOfTag("<br>", tail);
    TaggedTag("<br>", tail, true);
    TaggedAppends(first, "<br>" + tail, true);
    FlowAppends(first, "<br>" + tail, true);
    Assoc(first, "<br>", tail);
    BreakItem();
  }

  // ---------- Lines back from their flows ----------

  ghost predicate BreakFree(f: seq<Item>)
  {
    forall i :: 0 <= i < |f| ==> f[i] != Break
  }

  lemma {:induction false} PlainLineHasNoBreak(line: string)
    requires PlainLine(line)
    ensures BreakFree(Flow(line))
    decreases |line|
  {
    if line != "" {
      var head, rest := SplitFirst(line, false);
      assert Free(rest, '\n') by { assert forall i :: 0 <= i < |rest| ==> rest[i] == line[i + |head|]; }
      PlainLineHasNoBreak(rest);
      if IsOutputTag(head) {
        TaggedTag(head, rest, false);
        FlowOfTag(head, rest);
        MarkItem(head);
      } else {
        assert head[0] == line[0] != '\n';
        FlowOfChar(head[0], rest);
      }
    }
  }

  lemma {:induction false} PiecesAfter(head: seq<Item>, f: seq<Item>)
    requires BreakFree(head)
    ensures Pieces(head + f) == [head + Pieces(f)[0]] + Pieces(f)[1..]
  {
    if head == [] {
      assert head + f == f && head + Pieces(f)[0] == Pieces(f)[0];
    } else {
      assert BreakFree(head[1..]) by { assert forall i :: 0 <= i < |head[1..]| ==> head[1..][i] == head[i + 1]; }
      PiecesAfter(head[1..], f);
      assert (head + f)[1..] == head[1..] + f;
      assert head == [head[0]] + head[1..];
      Assoc([head[0]], head[1..], Pieces(f)[0]);
    }
  }

  lemma PiecesOfOne(f: seq<Item>)
    requires BreakFree(f)
    ensures Pieces(f) == [f]
  {
    PiecesAfter(f, []);
    assert f + [] == f;
  }

  lemma PiecesOfTwo(first: seq<Item>, tail: seq<Item>)
    requires BreakFree(first)
    ensures Pieces(first + ([Break] + tail)) == [first] + Pieces(tail)
  {
    var rest := [Break] + tail;
    assert rest[1..] == tail;
    PiecesAfter(first, rest);
    assert first + [] == first;
  }

  lemma {:induction false} PiecesOfJoin(flows: seq<seq<Item>>)
    requires flows != [] && forall i :: 0 <= i < |flows| ==> BreakFree(flows[i])
    ensures Pieces(JoinFlows(flows)) == flows
  {
    if |flows| == 1 {
      PiecesOfOne(flows[0]);
    } else {
      assert forall i :: 0 <= i < |flows[1..]| ==> flows[1..][i] == flows[i + 1];
      PiecesOfJoin(flows[1..]);
      PiecesOfTwo(flows[0], JoinFlows(flows[1..]));
      assert flows == [flows[0]] + flows[1..];
    }
  }

  /** Joined plain lines are read back as they are. */
  lemma LinesOfJoin(lines: seq<string>)
    requires AllPlain(lines)
    ensures Pieces(JoinFlows(Flows(lines))) == if lines == [] then [[]] else Flows(lines)
  {
    if lines == [] {
      assert Flows(lines) == [] && Pieces([]) == [[]];
    } else {
      forall i | 0 <= i < |lines| ensures BreakFree(Flows(lines)[i]) {
        PlainLineHasNoBreak(lines[i]);
      }
      PiecesOfJoin(Flows(lines));
    }
  }

  // ---------- The guarantees ----------

  lemma StrippedKeepsLines(s: string)
    ensures Tagged(Stripped(s), true) && RawLines(Stripped(s)) == CleanedLines(AfterFragment(s))
  {
    var text := Scan(AfterFragment(s));
    var lines := Split(text, '\n');
    ScanKeepsFlow(AfterFragment(s));
    ScannedIsItsLines(text);
    CleanLinesKeepFlows(lines);
    JoinKeepsFlow(CleanLines(lines));
    LinesOfJoin(lines);
    LinesOfJoin(CleanLines(lines));
    assert |Flows(CleanLines(lines))| == |CleanLines(lines)|;
  }

  ghost predicate StartsOutputTag(t: string)
  {
    "<mark>" <= t || "</mark>" <= t || "<br>" <= t
  }

  lemma TagHasOneBracket(tag: string, k: nat)
    requires IsOutputTag(tag) && k < |tag|
    ensures tag[k] == '<' <==> k == 0
  {
  }

  lemma TagStarts(tag: string, x: string)
    requires IsOutputTag(tag)
    ensures StartsOutputTag(tag + x)
  {
    assert tag <= tag + x;
  }

  lemma {:induction false} TaggedBrackets(t: string, lined: bool, i: nat)
    requires Tagged(t, lined) && i < |t| && t[i] == '<'
    ensures StartsOutputTag(t[i..])
    decreases |t|
  {
    if t[0] != '<' {
      TaggedBrackets(t[1..], lined, i - 1);
      assert t[1..][i - 1..] == t[i..];
    } else {
      var n := TagLength(t);
      var tag, x := t[..n], t[n..];
      assert t == tag + x;
      if i < n {
        TagHasOneBracket(tag, i);
        TagStarts(tag, x);
        assert t[0..] == t;
      } else {
        TaggedBrackets(x, lined, i - n);
        assert x[i - n..] == t[i..];
      }
    }
  }

  /** Every `<` of the output starts `<mark>`, `</mark>` or `<br>`. */
  lemma OutputHoldsOnlyKnownTags(s: string, i: nat)
    requires i < |Stripped(s)| && Stripped(s)[i] == '<'
    ensures StartsOutputTag(Stripped(s)[i..])
  {
    StrippedKeepsLines(s);
    TaggedBrackets(Stripped(s), true, i);
  }

  lemma {:induction false} JoinedLinesHoldNoLineBreak(lines: seq<string>)
    requires AllPlain(lines)
    ensures Free(JoinLines(lines), '\n')
  {
    if |lines| > 1 {
      JoinedLinesHoldNoLineBreak(lines[1..]);
    }
  }

  /** Line ends of the output are `<br>` tags only. */
  lemma OutputHoldsNoLineBreak(s: string)
    ensures Free(Stripped(s), '\n')
  {
    var text := Scan(AfterFragment(s));
    ScanKeepsFlow(AfterFragment(s));
    ScannedIsItsLines(text);
    CleanLinesKeepFlows(Split(text, '\n'));
    JoinedLinesHoldNoLineBreak(CleanLines(Split(text, '\n')));
  }

  /**
   The lines of the output are the lines of the input, trimmed, without those that hold
   nothing: all characters outside tags, blanks between them included, and all highlight
   tags, in order. Lines end at line breaks and at block tags. This is for a snippet that
   starts outside a tag.
   */
  lemma OutputKeepsTextMarksAndLines(s: string)
    requires forall j :: 0 <= j < |s| && s[j] == '>' ==> exists i :: 0 <= i < j && s[i] == '<'
    ensures RawLines(Stripped(s)) == CleanedLines(s)
  {
    var n := FirstClose(s);
    if n < |s| {
      var i :| 0 <= i < n && s[i] == '<';
      assert s[..n][i] == '<';
    }
    StrippedKeepsLines(s);
  }

  lemma {:induction false} FirstCloseAfter(f: string, s: string)
    requires Free(f, '>')
    ensures FirstClose(f + ">" + s) == |f|
  {
    var all := f + ">" + s;
    if f == "" {
      assert all[0] == '>';
    } else {
      assert forall i :: 0 <= i < |f[1..]| ==> f[1..][i] == f[i + 1];
      FirstCloseAfter(f[1..], s);
      assert all[0] == f[0] && all[1..] == f[1..] + ">" + s;
    }
  }

  /** A snippet that starts inside a tag loses the rest of that tag and nothing else. */
  lemma LeadingFragmentIsDropped(f: string, s: string)
    requires Free(f, '<') && Free(f, '>')
    ensures RawLines(Stripped(f + ">" + s)) == CleanedLines(s)
  {
    var all := f + ">" + s;
    FirstCloseAfter(f, s);
    assert all[..|f|] == f && all[|f| + 1..] == s;
    StrippedKeepsLines(all);
  }
}
