/** Embedding the rules in a Butane file, as a YAML literal block indented by ten columns. */
module Butane {
  import opened Seqs
  import opened Text

  const TABLE := "table inet openshift_filter"
  const DELETE := "delete table inet openshift_filter"

  function Spaces(n: nat): string { seq(n, _ => ' ') }

  function Indented(n: nat): string -> string { (line: string) => Spaces(n) + line }

  /** The indent goes into the split lines in place. */
  method IndentContent(content: string, indentSize: nat) returns (result: string)
    ensures result == Join(Map(Split(content, '\n'), Indented(indentSize)), "\n")
  {
    var parts := Split(content, '\n');
    var lines := new string[|parts|](i requires 0 <= i < |parts| => parts[i]);
    var indent := Spaces(indentSize);
    for i := 0 to lines.Length
      invariant forall k :: 0 <= k < i ==> lines[k] == indent + parts[k]
      invariant forall k :: i <= k < lines.Length ==> lines[k] == parts[k]
    {
      lines[i] := indent + lines[i];
    }
    assert lines[..] == Map(parts, Indented(indentSize));
    result := Join(lines[..], "\n");
  }

  /** The lines of the rules after the first, which is the shebang; one empty line when there is none. */
  function RuleLines(nftablesRules: string): seq<string>
  {
    var lines := Split(nftablesRules, '\n');
    if |lines| > 1 then lines[1..] else [""]
  }

  /** What follows `inline: |` in the file: two fixed lines, the rules, and the template's last line. */
  method BuildButaneBlock(nftablesRules: string) returns (block: string)
    ensures block == Join([Spaces(10) + TABLE, Spaces(10) + DELETE] + Map(RuleLines(nftablesRules), Indented(10))
                          + [Spaces(8)], "\n")
    ensures HoldsRules(block, nftablesRules)
  {
    var lines := Split(nftablesRules, '\n');
    var nftablesRulesWithoutFirstLine := "";
    if |lines| > 1 {
      nftablesRulesWithoutFirstLine := Join(lines[1..], "\n");
    }
    var indentedRules := IndentContent(nftablesRulesWithoutFirstLine, 10);
    block := (Spaces(10) + TABLE) + "\n" + ((Spaces(10) + DELETE) + "\n" + (indentedRules + "\n" + Spaces(8)));

    SplitPartsHaveNoSeparator(nftablesRules, '\n');
    if |lines| > 1 {
      SplitInvertsJoin(lines[1..], '\n');
    }
    BlockIsJoined(Spaces(10) + TABLE, Spaces(10) + DELETE, Map(RuleLines(nftablesRules), Indented(10)), Spaces(8));
    BlockRoundTrip(nftablesRules, block);
  }

  lemma BlockIsJoined(a: string, b: string, rules: seq<string>, last: string)
    requires rules != []
    ensures a + "\n" + (b + "\n" + (Join(rules, "\n") + "\n" + last)) == Join([a, b] + rules + [last], "\n")
  {
    JoinAppend(rules, [last], "\n");
    var rest := rules + [last];
    assert ([b] + rest)[1..] == rest;
    assert ([a, b] + rest)[1..] == [b] + rest;
    assert [a, b] + rules + [last] == [a, b] + rest;
  }

  // ----- Reading the block back -----

  /** A line of a literal block without its indentation (section 8.1.2 of YAML 1.2.2): content lines
      carry all of it, blank lines may carry less; None for anything else. */
  function StripIndent(line: string, n: nat): Option<string>
  {
    if n <= |line| && IsBlank(line[..n]) then Some(line[n..])
    else if IsBlank(line) then Some("")
    else None
  }

  predicate IsBlank(s: string) { forall c :: c in s ==> c == ' ' }

  function ReadLines(lines: seq<string>, n: nat): Option<seq<string>>
  {
    if lines == [] then Some([])
    else match (ReadLines(lines[..|lines| - 1], n), StripIndent(lines[|lines| - 1], n))
      case (Some(front), Some(line)) => Some(front + [line])
      case _ => None
  }

  lemma {:induction false} ReadIndented(lines: seq<string>, n: nat)
    ensures ReadLines(Map(lines, Indented(n)), n) == Some(lines)
  {
    if lines == [] {
      assert Map(lines, Indented(n)) == [];
    } else {
      var front, line := lines[..|lines| - 1], lines[|lines| - 1];
      ReadIndented(front, n);
      assert Map(lines, Indented(n))[..|front|] == Map(front, Indented(n));
      assert (Spaces(n) + line)[n..] == line;
      assert (Spaces(n) + line)[..n] == Spaces(n);
      assert front + [line] == lines;
    }
  }

  /** Without its indentation the block is the two lines that empty the table, every line of the rules but
      the first, and a blank line; for rules of a single line, a blank line in their place. */
  ghost predicate HoldsRules(block: string, rules: string)
  {
    && (forall first, rest :: '\n' !in first && rules == first + "\n" + rest ==>
          ReadsAs(block, Split(rest, '\n')))
    && ('\n' !in rules ==> ReadsAs(block, [""]))
  }

  predicate ReadsAs(block: string, rules: seq<string>)
  {
    ReadLines(Split(block, '\n'), 10)
      == Some(["table inet openshift_filter", "delete table inet openshift_filter"] + rules + [""])
  }

  lemma BlockRoundTrip(nftablesRules: string, block: string)
    requires block == Join([Spaces(10) + TABLE, Spaces(10) + DELETE] + Map(RuleLines(nftablesRules), Indented(10))
                           + [Spaces(8)], "\n")
    ensures HoldsRules(block, nftablesRules)
  {
    var rules := RuleLines(nftablesRules);
    SplitPartsHaveNoSeparator(nftablesRules, '\n');
    var content := [TABLE, DELETE] + rules;
    assert Map(content, Indented(10)) == [Spaces(10) + TABLE, Spaces(10) + DELETE] + Map(rules, Indented(10));
    LinesReadBack(content, block, 10, 8);
    forall first, rest | '\n' !in first && nftablesRules == first + "\n" + rest ensures rules == Split(rest, '\n') {
      SplitAtFirst(first, '\n', rest);
    }
    if '\n' !in nftablesRules { SplitAtFirst(nftablesRules, '\n', ""); }
  }

  lemma LinesReadBack(content: seq<string>, block: string, n: nat, k: nat)
    requires (forall l :: l in content ==> '\n' !in l) && k < n
    requires block == Join(Map(content, Indented(n)) + [Spaces(k)], "\n")
    ensures ReadLines(Split(block, '\n'), n) == Some(content + [""])
  {
    var body := Map(content, Indented(n));
    forall l | l in body + [Spaces(k)] ensures '\n' !in l { IndentsHaveNoBreak(content, n, k, l); }
    SplitInvertsJoin(body + [Spaces(k)], '\n');
    ReadIndented(content, n);
    BlankIsEmpty(k, n);
    ReadNext(body, Spaces(k), n);
  }

  lemma IndentsHaveNoBreak(content: seq<string>, n: nat, k: nat, l: string)
    requires forall c :: c in content ==> '\n' !in c
    requires l in Map(content, Indented(n)) + [Spaces(k)]
    ensures '\n' !in l
  {
    if l in Map(content, Indented(n)) {
      var i :| 0 <= i < |content| && Map(content, Indented(n))[i] == l;
      assert content[i] in content;
    }
  }

  lemma ReadNext(lines: seq<string>, line: string, n: nat)
    requires ReadLines(lines, n).Some? && StripIndent(line, n).Some?
    ensures ReadLines(lines + [line], n) == Some(ReadLines(lines, n).value + [StripIndent(line, n).value])
  {
    assert (lines + [line])[..|lines|] == lines;
  }

  lemma BlankIsEmpty(k: nat, n: nat)
    requires k < n
    ensures StripIndent(Spaces(k), n) == Some("")
  {}
}
