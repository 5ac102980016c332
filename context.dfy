/** The text block `format_context` builds: one line `- [<kind>][imp:<importance>] <content>`
    per entry, joined by newlines. */
module Context {
  import opened Wrappers
  import opened Schema
  import Decimal
  import Lines

  /** The f-string `f"- [{kind}][imp:{imp}] {content}"`. */
  function RenderLine(e: Entry): string {
    "- [" + e.kind + "][imp:" + Decimal.IntToString(e.importance) + "] " + e.content
  }

  /** The `lines` list: one rendered line per entry, in order. */
  function RenderAll(entries: seq<Entry>): seq<string> {
    seq(|entries|, i requires 0 <= i < |entries| => RenderLine(entries[i]))
  }

  /** What `format_context` returns for the entries `latest` gave it. */
  function ContextText(entries: seq<Entry>): (text: string)
    ensures text == [] <==> entries == []
  {
    if entries == [] then [] else Lines.Join(RenderAll(entries), "\n")
  }

  /** The body of `format_context` after its call to `latest`: the empty string for no
      entries, otherwise the `lines` list built entry by entry and joined by newlines. */
  method FormatEntries(entries: seq<Entry>) returns (text: string)
    ensures text == ContextText(entries)
  {
    if entries == [] {
      return "";
    }
    var lines: seq<string> := [];
    for i := 0 to |entries|
      invariant |lines| == i
      invariant forall k :: 0 <= k < i ==> lines[k] == RenderLine(entries[k])
    {
      lines := lines + [RenderLine(entries[i])];
    }
    assert lines == RenderAll(entries);
    text := Lines.Join(lines, "\n");
  }

  /** The parts of a rendered line. */
  datatype ParsedLine = ParsedLine(kind: string, importance: int, content: string)

  /** The text before and after the first `c` in `s`, if `s` holds a `c`. */
  function SplitAtFirst(s: string, c: char): Option<(string, string)> {
    if s == [] then None
    else if s[0] == c then Some(([], s[1..]))
    else match SplitAtFirst(s[1..], c)
      case None => None
      case Some(parts) => Some(([s[0]] + parts.0, parts.1))
  }

  /** Reads a line of the form `- [<kind>][imp:<importance>] <content>` back into its parts,
      taking the kind up to the first `]`. */
  function ParseLine(line: string): Option<ParsedLine> {
    if |line| < 3 || line[..3] != "- [" then None
    else match SplitAtFirst(line[3..], ']')
      case None => None
      case Some(afterKind) =>
        var rest := afterKind.1;
        if |rest| < 5 || rest[..5] != "[imp:" then None
        else match SplitAtFirst(rest[5..], ']')
          case None => None
          case Some(afterImportance) =>
            var tail := afterImportance.1;
            if |tail| < 1 || tail[0] != ' ' then None
            else match Decimal.ParseInt(afterImportance.0)
              case None => None
              case Some(importance) => Some(ParsedLine(afterKind.0, importance, tail[1..]))
  }

  lemma {:induction false} SplitAtFirstOf(a: string, b: string, c: char)
    requires c !in a
    ensures SplitAtFirst(a + [c] + b, c) == Some((a, b))
  {
    if a == [] {
      assert ([c] + b)[1..] == b;
    } else {
      assert (a + [c] + b)[1..] == a[1..] + [c] + b;
      SplitAtFirstOf(a[1..], b, c);
      assert [a[0]] + a[1..] == a;
    }
  }

  /** A rendered line gives back the entry's kind, importance and content, provided the
      kind holds no `]` (otherwise the line is ambiguous). */
  lemma RenderParses(e: Entry)
    requires ']' !in e.kind
    ensures ParseLine(RenderLine(e)) == Some(ParsedLine(e.kind, e.importance, e.content))
  {
    var number := Decimal.IntToString(e.importance);
    var line := RenderLine(e);
    var rest := "[imp:" + number + "] " + e.content;
    assert line[..3] == "- [";
    assert line[3..] == e.kind + [']'] + rest;
    SplitAtFirstOf(e.kind, rest, ']');
    assert rest[..5] == "[imp:";
    assert ']' !in number by {
      forall k | 0 <= k < |number| ensures number[k] != ']' {
      }
    }
    assert rest[5..] == number + [']'] + (" " + e.content);
    SplitAtFirstOf(number, " " + e.content, ']');
    Decimal.IntRoundTrip(e.importance);
  }

  /** A rendered line has a line break only where its kind or content has one. */
  lemma RenderLineBreaks(e: Entry)
    requires '\n' !in e.kind && '\n' !in e.content
    ensures '\n' !in RenderLine(e)
  {
  }

  /** When no kind or content holds a line break, the block has exactly one line per entry,
      in order, and each line reads back as its entry. */
  lemma ContextLines(entries: seq<Entry>)
    requires entries != []
    requires forall i :: 0 <= i < |entries| ==> '\n' !in entries[i].kind && '\n' !in entries[i].content
    ensures Lines.Split(ContextText(entries), '\n') == RenderAll(entries)
    ensures |Lines.Split(ContextText(entries), '\n')| == |entries|
    ensures forall i :: 0 <= i < |entries| && ']' !in entries[i].kind ==>
      ParseLine(Lines.Split(ContextText(entries), '\n')[i])
        == Some(ParsedLine(entries[i].kind, entries[i].importance, entries[i].content))
  {
    var lines := RenderAll(entries);
    forall k | 0 <= k < |lines| ensures '\n' !in lines[k] {
      RenderLineBreaks(entries[k]);
    }
    Lines.SplitJoin(lines, '\n');
    forall i | 0 <= i < |entries| && ']' !in entries[i].kind
      ensures ParseLine(lines[i]) == Some(ParsedLine(entries[i].kind, entries[i].importance, entries[i].content))
    {
      RenderParses(entries[i]);
    }
  }
}
