/**
 `doConversion` without the files: the converted lines and the text
 `writeTextFile` stores for them, one newline after every line.
 */
module Output {
  import opened Mac
  import opened Convert
  import opened Seqs

  /** The text `writeTextFile` writes: each line followed by a newline. */
  function Serialize(lines: seq<string>): (t: string)
    ensures t == [] <==> lines == []
    ensures t != [] ==> t[|t| - 1] == '\n'
  {
    if lines == [] then [] else lines[0] + "\n" + Serialize(lines[1..])
  }

  /** The length of the first line of `t`: the index of its first newline, or `|t|` when it has none. */
  function LineEnd(t: string): (k: nat)
    ensures k <= |t|
    ensures '\n' !in t[..k]
    ensures k < |t| ==> t[k] == '\n'
  {
    if t == [] || t[0] == '\n' then 0
    else
      assert t[..1 + LineEnd(t[1..])] == [t[0]] + t[1..][..LineEnd(t[1..])];
      1 + LineEnd(t[1..])
  }

  /**
   Splits text back into lines: every newline ends a line, and text after the
   last newline, if any, is one more line.
   */
  function Lines(t: string): seq<string>
    decreases |t|
  {
    if t == [] then []
    else
      var k := LineEnd(t);
      if k < |t| then [t[..k]] + Lines(t[k + 1..]) else [t]
  }

  lemma {:induction false} LineEndAfter(l: string, rest: string)
    requires '\n' !in l
    ensures LineEnd(l + "\n" + rest) == |l|
    decreases |l|
  {
    if l != [] {
      assert (l + "\n" + rest)[1..] == l[1..] + "\n" + rest;
      assert forall c :: c in l[1..] ==> c in l;
      LineEndAfter(l[1..], rest);
    }
  }

  /** A newline-free line followed by a newline splits off as the first line. */
  lemma LinesCons(l: string, rest: string)
    requires '\n' !in l
    ensures Lines(l + "\n" + rest) == [l] + Lines(rest)
  {
    var t := l + "\n" + rest;
    LineEndAfter(l, rest);
    AppendAssoc(l, "\n", rest);
    TakeLeft(l, "\n" + rest);
    DropLeft(l + "\n", rest);
    assert t[..|l|] == l;
    assert t[|l| + 1..] == rest;
  }

  /** Splitting the written text gives back the lines, as long as no line holds a newline of its own. */
  lemma {:induction false} LinesSerialize(ls: seq<string>)
    requires NoNewlines(ls)
    ensures Lines(Serialize(ls)) == ls
    decreases |ls|
  {
    if ls != [] {
      var rest := Serialize(ls[1..]);
      assert Serialize(ls) == ls[0] + "\n" + rest;
      LinesCons(ls[0], rest);
      LinesSerialize(ls[1..]);
      assert ls == [ls[0]] + ls[1..];
    }
  }

  lemma {:induction false} SerializeConcat(a: seq<string>, b: seq<string>)
    ensures Serialize(a + b) == Serialize(a) + Serialize(b)
    decreases |a|
  {
    if a == [] {
      assert a + b == b;
    } else {
      assert (a + b)[1..] == a[1..] + b;
      SerializeConcat(a[1..], b);
      AppendThree(a[0], "\n", Serialize(a[1..]), Serialize(b));
    }
  }

  /** `doConversion`, with the input already split into lines and the output file as its text. */
  method DoConversion(macList: seq<string>, addrGrpName: string) returns (text: string)
    ensures text == Serialize(Layout(macList, addrGrpName))
  {
    var macFGList := ConvertToFGsyntax(macList, addrGrpName);
    text := Serialize(macFGList);
  }

  /** An accepted line holds only hex digits and colons, so never a newline. */
  lemma MacHasNoNewline(n: string)
    requires ValidateMac(n)
    ensures '\n' !in n
  {
    forall i | 0 <= i < |n| ensures n[i] != '\n' {
      assert PositionOk(n, i);
    }
  }

  lemma {:induction false} AddressEntriesNoNewline(ms: seq<string>)
    requires forall i :: 0 <= i < |ms| ==> '\n' !in ms[i]
    ensures forall j :: 0 <= j < |AddressEntries(ms)| ==> '\n' !in AddressEntries(ms)[j]
  {
    if ms != [] {
      var init := ms[..|ms| - 1];
      AddressEntriesNoNewline(init);
      var n := ms[|ms| - 1];
      assert '\n' !in EditLine(n);
      assert forall j :: 0 <= j < 5 ==> '\n' !in EditBlock(n)[j];
    }
  }

  lemma {:induction false} MemberListNoNewline(ms: seq<string>)
    requires forall i :: 0 <= i < |ms| ==> '\n' !in ms[i]
    ensures '\n' !in MemberList(ms)
  {
    if ms != [] {
      MemberListNoNewline(ms[..|ms| - 1]);
    }
  }

  /** The one line of the script that holds a newline of its own is the group block's header. */
  lemma ScriptNewlines(lines: seq<string>, grp: string)
    requires '\n' !in grp
    ensures var r := Layout(lines, grp); var k := |AcceptedMacs(lines)|;
      && |r| == 5 * k + 7
      && r[5 * k + 2] == "\nconfig firewall addrgrp"
      && forall i :: 0 <= i < |r| && i != 5 * k + 2 ==> '\n' !in r[i]
  {
    var ms := AcceptedMacs(lines);
    AcceptedMacsAreMacs(lines);
    forall i | 0 <= i < |ms| ensures '\n' !in ms[i] {
      MacHasNoNewline(ms[i]);
    }
    AddressEntriesNoNewline(ms);
    MemberListNoNewline(ms);
    var entries := AddressEntries(ms);
    var r := Layout(lines, grp);
    assert '\n' !in EditLine(grp);
    assert '\n' !in AppendLine(ms);
    forall i | 0 <= i < |r| && i != 5 * |ms| + 2 ensures '\n' !in r[i] {
      if 1 <= i <= |entries| {
        assert r[i] == entries[i - 1];
      }
    }
  }

  /** A line that starts with a newline is written as an empty line followed by the rest. */
  lemma LeadingNewline(l: string)
    ensures Serialize(["\n" + l]) == Serialize(["", l])
  {
    assert ["", l][1..] == [l];
    assert Serialize(["", l]) == [] + "\n" + Serialize([l]);
    assert ["\n" + l][1..] == [];
    assert Serialize([l]) == l + "\n" + [];
    AppendAssoc("\n", l, "\n");
  }

  /** The group block's header is a newline and then the header proper. */
  lemma GroupHeaderSplit()
    ensures Serialize(["\nconfig firewall addrgrp"]) == Serialize(["", "config firewall addrgrp"])
  {
    LeadingNewline("config firewall addrgrp");
    assert "\n" + "config firewall addrgrp" == "\nconfig firewall addrgrp";
  }

  /** Writing the group header gives the same text as writing an empty line and then the header proper. */
  lemma GroupHeaderText(head: seq<string>, tail: seq<string>)
    ensures Serialize(head + ["\nconfig firewall addrgrp"] + tail)
      == Serialize(head + ["", "config firewall addrgrp"] + tail)
  {
    var one := ["\nconfig firewall addrgrp"];
    var two := ["", "config firewall addrgrp"];
    SerializeConcat(head + one, tail);
    SerializeConcat(head, one);
    SerializeConcat(head + two, tail);
    SerializeConcat(head, two);
    GroupHeaderSplit();
  }

  /** No line of `ls` holds a newline. */
  predicate NoNewlines(ls: seq<string>) {
    forall i :: 0 <= i < |ls| ==> '\n' !in ls[i]
  }

  lemma NoNewlinesAround(r: seq<string>, j: int)
    requires 0 <= j < |r|
    requires forall i :: 0 <= i < |r| && i != j ==> '\n' !in r[i]
    ensures NoNewlines(r[..j]) && NoNewlines(r[j + 1..])
  {
    var after := r[j + 1..];
    forall i | 0 <= i < |after| ensures '\n' !in after[i] {
      assert after[i] == r[j + 1 + i];
    }
  }

  lemma NoNewlinesJoin(a: seq<string>, b: seq<string>, c: seq<string>)
    requires NoNewlines(a) && NoNewlines(b) && NoNewlines(c)
    ensures NoNewlines(a + b + c)
  {
  }

  /** The two lines the group header reads back as hold no newline. */
  lemma SplitHeaderNoNewlines()
    ensures NoNewlines(["", "config firewall addrgrp"])
  {
    assert '\n' !in "config firewall addrgrp";
  }

  /** Replacing the one line that holds a newline by the split header leaves no newline inside a line. */
  lemma SplitNoNewlines(r: seq<string>, j: int)
    requires 0 <= j < |r|
    requires forall i :: 0 <= i < |r| && i != j ==> '\n' !in r[i]
    ensures NoNewlines(r[..j] + ["", "config firewall addrgrp"] + r[j + 1..])
  {
    NoNewlinesAround(r, j);
    SplitHeaderNoNewlines();
    NoNewlinesJoin(r[..j], ["", "config firewall addrgrp"], r[j + 1..]);
  }

  /** A list whose only line with a newline is the group header reads back with that header split in two. */
  lemma HeaderSplitLines(r: seq<string>, j: int)
    requires 0 <= j < |r| && r[j] == "\nconfig firewall addrgrp"
    requires forall i :: 0 <= i < |r| && i != j ==> '\n' !in r[i]
    ensures Lines(Serialize(r)) == r[..j] + ["", "config firewall addrgrp"] + r[j + 1..]
  {
    SplitAt(r, j);
    GroupHeaderText(r[..j], r[j + 1..]);
    SplitNoNewlines(r, j);
    LinesSerialize(r[..j] + ["", "config firewall addrgrp"] + r[j + 1..]);
  }

  /**
   Read back line by line, the written file shows the script with a blank line
   before `config firewall addrgrp`: the separator is a newline inside a line.
   */
  lemma OutputFileLines(lines: seq<string>, grp: string)
    requires '\n' !in grp
    ensures var r := Layout(lines, grp); var k := |AcceptedMacs(lines)|;
      Lines(Serialize(r)) == r[..5 * k + 2] + ["", "config firewall addrgrp"] + r[5 * k + 3..]
  {
    ScriptNewlines(lines, grp);
    HeaderSplitLines(Layout(lines, grp), 5 * |AcceptedMacs(lines)| + 2);
  }
}
