/**
 `convertToFGsyntax`: from the lines of the uploaded list and an address-group name
 to the lines of a FortiGate script holding one MAC address object per accepted
 line and one address group that appends all of them.
 */
module Convert {
  import opened Text
  import opened Mac
  import opened Seqs

  const AddressHeader := "config firewall address"
  const AddrgrpHeader := "\nconfig firewall addrgrp"
  const AppendPrefix := "append member "
  const Next := "    next"
  const End := "end"

  /** The line that opens the definition of the object or group named `n`. */
  function EditLine(n: string): string {
    "    edit \"" + n + "\""
  }

  /** The five lines that define the address object named `n`. */
  function EditBlock(n: string): seq<string> {
    [EditLine(n), "        set type mac", "        set start-mac " + n, "        set end-mac " + n, Next]
  }

  /** One entry of the group's member list: a space and the quoted name. */
  function Member(n: string): string {
    " \"" + n + "\""
  }

  /**
   The names the accepted lines get, in input order and with repetitions kept:
   every name is a lower-case MAC address.
   */
  function AcceptedMacs(lines: seq<string>): (ms: seq<string>)
    ensures |ms| <= |lines|
  {
    if lines == [] then []
    else
      var mac := lines[|lines| - 1];
      AcceptedMacs(lines[..|lines| - 1]) + (if ValidateMac(mac) then [Normalize(mac)] else [])
  }

  /** The address objects of `ms`, five lines each, in the order of `ms`. */
  function AddressEntries(ms: seq<string>): (r: seq<string>)
    ensures |r| == 5 * |ms|
  {
    if ms == [] then [] else AddressEntries(ms[..|ms| - 1]) + EditBlock(ms[|ms| - 1])
  }

  /** The quoted names of `ms`, in the order of `ms`, each preceded by a space. */
  function MemberList(ms: seq<string>): (r: string)
    ensures (forall i :: 0 <= i < |ms| ==> |ms[i]| == 17) ==> |r| == 20 * |ms|
  {
    if ms == [] then [] else MemberList(ms[..|ms| - 1]) + Member(ms[|ms| - 1])
  }

  /** The line that appends every member to the group. */
  function AppendLine(ms: seq<string>): string {
    "        " + AppendPrefix + MemberList(ms)
  }

  /**
   The script the converter emits, block by block: the address header, the
   objects of the accepted lines, `end`, the group header after a blank line,
   the group's edit line, its append line, `next` and `end`.
   */
  function Layout(lines: seq<string>, grp: string): seq<string> {
    var ms := AcceptedMacs(lines);
    [AddressHeader] + AddressEntries(ms)
      + [End, AddrgrpHeader, EditLine(grp), AppendLine(ms), Next, End]
  }

  /** Appending one line to the input appends its name, when it is accepted, and nothing otherwise. */
  lemma AcceptedMacsSnoc(lines: seq<string>, mac: string)
    ensures AcceptedMacs(lines + [mac]) == AcceptedMacs(lines) + (if ValidateMac(mac) then [Normalize(mac)] else [])
  {
    assert (lines + [mac])[..|lines|] == lines;
  }

  /** The accepted names of the first `i + 1` lines extend those of the first `i` by at most line `i`'s name. */
  lemma AcceptedPrefixStep(lines: seq<string>, i: int)
    requires 0 <= i < |lines|
    ensures AcceptedMacs(lines[..i + 1])
      == AcceptedMacs(lines[..i]) + (if ValidateMac(lines[i]) then [Normalize(lines[i])] else [])
  {
    assert lines[..i + 1] == lines[..i] + [lines[i]];
    AcceptedMacsSnoc(lines[..i], lines[i]);
  }

  lemma AddressEntriesSnoc(ms: seq<string>, n: string)
    ensures AddressEntries(ms + [n]) == AddressEntries(ms) + EditBlock(n)
  {
    assert (ms + [n])[..|ms|] == ms;
  }

  lemma MemberListSnoc(ms: seq<string>, n: string)
    ensures MemberList(ms + [n]) == MemberList(ms) + Member(n)
  {
    assert (ms + [n])[..|ms|] == ms;
  }

  /**
   `convertToFGsyntax`, statement by statement: one pass over the lines that
   appends five lines and one member for every line `validateMac` accepts.
   */
  method ConvertToFGsyntax(macList: seq<string>, addGrp: string) returns (macFGList: seq<string>)
    ensures macFGList == Layout(macList, addGrp)
  {
    macFGList := [];
    var appendList := AppendPrefix;
    macFGList := macFGList + [AddressHeader];
    for i := 0 to |macList|
      invariant macFGList == [AddressHeader] + AddressEntries(AcceptedMacs(macList[..i]))
      invariant appendList == AppendPrefix + MemberList(AcceptedMacs(macList[..i]))
    {
      var mac := macList[i];
      AcceptedPrefixStep(macList, i);
      if ValidateMac(mac) {
        mac := Normalize(mac);
        ghost var done := AcceptedMacs(macList[..i]);
        ghost var before := macFGList;
        ghost var listed := appendList;
        AddressEntriesSnoc(done, mac);
        MemberListSnoc(done, mac);
        macFGList := macFGList + ["    edit \"" + mac + "\""];
        macFGList := macFGList + ["        set type mac"];
        macFGList := macFGList + ["        set start-mac " + mac];
        macFGList := macFGList + ["        set end-mac " + mac];
        macFGList := macFGList + [Next];
        appendList := appendList + " \"" + mac + "\"";
        AppendFive(before, EditBlock(mac));
        assert macFGList == before + EditBlock(mac);
        assert AcceptedMacs(macList[..i + 1]) == done + [mac];
        AppendAssoc([AddressHeader], AddressEntries(done), EditBlock(mac));
        AppendThree(listed, " \"", mac, "\"");
        AppendAssoc(AppendPrefix, MemberList(done), Member(mac));
      } else {
        assert AcceptedMacs(macList[..i + 1]) == AcceptedMacs(macList[..i]);
      }
    }
    assert macList[..|macList|] == macList;
    ghost var ms := AcceptedMacs(macList);
    assert "        " + appendList == AppendLine(ms);
    macFGList := macFGList + [End];
    macFGList := macFGList + [AddrgrpHeader];
    macFGList := macFGList + ["    edit \"" + addGrp + "\""];
    macFGList := macFGList + ["        " + appendList];
    macFGList := macFGList + [Next];
    macFGList := macFGList + [End];
  }

  // Properties of the emitted script.

  /** Every accepted name is a lower-case MAC address, seventeen characters long. */
  lemma {:induction false} AcceptedMacsAreMacs(lines: seq<string>)
    ensures forall i :: 0 <= i < |AcceptedMacs(lines)| ==>
      ValidateMac(AcceptedMacs(lines)[i]) && IsLower(AcceptedMacs(lines)[i]) && |AcceptedMacs(lines)[i]| == 17
  {
    if lines != [] {
      var mac := lines[|lines| - 1];
      var done := AcceptedMacs(lines[..|lines| - 1]);
      AcceptedMacsAreMacs(lines[..|lines| - 1]);
      if ValidateMac(mac) {
        var n := Normalize(mac);
        assert AcceptedMacs(lines) == done + [n];
        NormalizeValid(mac);
        forall i | 0 <= i < |done| + 1
          ensures ValidateMac((done + [n])[i]) && IsLower((done + [n])[i]) && |(done + [n])[i]| == 17
        {
          if i < |done| {
            assert (done + [n])[i] == done[i];
          } else {
            assert (done + [n])[i] == n;
          }
        }
      }
    }
  }

  /**
   The accepted names of a list are those of its parts, joined in order: no line
   influences the name of another, and nothing is reordered or merged.
   */
  lemma {:induction false} AcceptedMacsConcat(a: seq<string>, b: seq<string>)
    ensures AcceptedMacs(a + b) == AcceptedMacs(a) + AcceptedMacs(b)
    decreases |b|
  {
    if b == [] {
      assert a + b == a;
    } else {
      var init := b[..|b| - 1];
      var y := b[|b| - 1];
      assert b == init + [y];
      assert a + b == (a + init) + [y];
      AcceptedMacsConcat(a, init);
      AcceptedMacsSnoc(a + init, y);
      AcceptedMacsSnoc(init, y);
      AppendAssoc(AcceptedMacs(a), AcceptedMacs(init), if ValidateMac(y) then [Normalize(y)] else []);
    }
  }

  /** One line on its own yields its name when `validateMac` accepts it, and nothing otherwise. */
  lemma AcceptedMacsSingle(mac: string)
    ensures ValidateMac(mac) ==> AcceptedMacs([mac]) == [Lower(mac)]
    ensures !ValidateMac(mac) ==> AcceptedMacs([mac]) == []
  {
    AcceptedMacsSnoc([], mac);
    assert [] + [mac] == [mac];
    if ValidateMac(mac) {
      NormalizeValid(mac);
    }
  }

  /** A line `validateMac` rejects leaves the whole script as if it were not there. */
  lemma RejectedLineIgnored(a: seq<string>, mac: string, b: seq<string>, grp: string)
    requires !ValidateMac(mac)
    ensures Layout(a + [mac] + b, grp) == Layout(a + b, grp)
  {
    AcceptedMacsConcat(a + [mac], b);
    AcceptedMacsConcat(a, [mac]);
    AcceptedMacsSingle(mac);
    AcceptedMacsConcat(a, b);
    assert AcceptedMacs(a) + [] == AcceptedMacs(a);
  }

  /** Repeated accepted lines are kept, each with its own name: there is no de-duplication. */
  lemma RepeatsKept(lines: seq<string>, mac: string)
    requires ValidateMac(mac)
    ensures AcceptedMacs(lines + [mac, mac]) == AcceptedMacs(lines) + [Lower(mac), Lower(mac)]
  {
    var n := Normalize(mac);
    assert lines + [mac, mac] == (lines + [mac]) + [mac];
    AcceptedMacsSnoc(lines, mac);
    AcceptedMacsSnoc(lines + [mac], mac);
    AppendAssoc(AcceptedMacs(lines), [n], [n]);
    assert [n] + [n] == [n, n];
    NormalizeValid(mac);
  }

  /** Object `i` of the address block is the five-line definition of the `i`-th name. */
  lemma {:induction false} AddressEntriesAt(ms: seq<string>)
    ensures forall i :: 0 <= i < |ms| ==> AddressEntries(ms)[5 * i..5 * i + 5] == EditBlock(ms[i])
  {
    if ms != [] {
      var init := ms[..|ms| - 1];
      var n := ms[|ms| - 1];
      AddressEntriesAt(init);
      forall i | 0 <= i < |ms|
        ensures AddressEntries(ms)[5 * i..5 * i + 5] == EditBlock(ms[i])
      {
        if i < |init| {
          SliceLeft(AddressEntries(init), EditBlock(n), 5 * i, 5 * i + 5);
        } else {
          SliceRight(AddressEntries(init), EditBlock(n), 0, 5);
        }
      }
    }
  }

  /** Member `i` of the list is the quoted `i`-th name, at offset `20 * i`, when every name is a MAC address. */
  lemma {:induction false} MemberListAt(ms: seq<string>)
    requires forall i :: 0 <= i < |ms| ==> |ms[i]| == 17
    ensures forall i :: 0 <= i < |ms| ==> MemberList(ms)[20 * i..20 * i + 20] == Member(ms[i])
  {
    if ms != [] {
      var init := ms[..|ms| - 1];
      var n := ms[|ms| - 1];
      MemberListAt(init);
      forall i | 0 <= i < |ms|
        ensures MemberList(ms)[20 * i..20 * i + 20] == Member(ms[i])
      {
        if i < |init| {
          SliceLeft(MemberList(init), Member(n), 20 * i, 20 * i + 20);
        } else {
          SliceRight(MemberList(init), Member(n), 0, 20);
        }
      }
    }
  }

  /**
   The shape of the script for `k` accepted lines: `7 + 5 * k` lines, the address
   header first, the `i`-th name's five-line object at `1 + 5 * i`, then `end`,
   and the six-line group block last.
   */
  lemma LayoutShape(lines: seq<string>, grp: string)
    ensures var ms := AcceptedMacs(lines); var r := Layout(lines, grp);
      && |r| == 7 + 5 * |ms|
      && r[0] == "config firewall address"
      && (forall i :: 0 <= i < |ms| ==> r[1 + 5 * i..6 + 5 * i] == EditBlock(ms[i]))
      && r[|r| - 6..] == ["end", "\nconfig firewall addrgrp", "    edit \"" + grp + "\"", AppendLine(ms), "    next", "end"]
  {
    var ms := AcceptedMacs(lines);
    var entries := AddressEntries(ms);
    var tail := [End, AddrgrpHeader, EditLine(grp), AppendLine(ms), Next, End];
    var r := Layout(lines, grp);
    assert r == [AddressHeader] + entries + tail;
    AddressEntriesAt(ms);
    forall i | 0 <= i < |ms|
      ensures r[1 + 5 * i..6 + 5 * i] == EditBlock(ms[i])
    {
      AppendAssoc([AddressHeader], entries, tail);
      SliceLeft(entries, tail, 5 * i, 5 * i + 5);
      SliceRight([AddressHeader], entries + tail, 5 * i, 5 * i + 5);
    }
    SliceRight([AddressHeader] + entries, tail, 0, 6);
  }

  /**
   The append line: `append member ` at the deeper indent, then the `i`-th name
   quoted at offset `22 + 20 * i`, nothing else; with no accepted line it is the
   bare prefix.
   */
  lemma AppendLineLayout(lines: seq<string>)
    ensures var ms := AcceptedMacs(lines); var line := AppendLine(ms);
      && |line| == 22 + 20 * |ms|
      && line[..22] == "        append member "
      && (forall i :: 0 <= i < |ms| ==> line[22 + 20 * i..42 + 20 * i] == " \"" + ms[i] + "\"")
      && (ms == [] ==> line == "        append member ")
  {
    AcceptedMacsAreMacs(lines);
    AppendLineOf(AcceptedMacs(lines));
  }

  /** The append line for any list of 17-character names. */
  lemma AppendLineOf(ms: seq<string>)
    requires forall i :: 0 <= i < |ms| ==> |ms[i]| == 17
    ensures var line := AppendLine(ms);
      && |line| == 22 + 20 * |ms|
      && line[..22] == "        append member "
      && (forall i :: 0 <= i < |ms| ==> line[22 + 20 * i..42 + 20 * i] == " \"" + ms[i] + "\"")
      && (ms == [] ==> line == "        append member ")
  {
    MemberListAt(ms);
    var prefix := "        " + AppendPrefix;
    assert |prefix| == 22;
    forall i | 0 <= i < |ms|
      ensures AppendLine(ms)[22 + 20 * i..42 + 20 * i] == Member(ms[i])
    {
      SliceRight(prefix, MemberList(ms), 20 * i, 20 * i + 20);
    }
    SliceLeft(prefix, MemberList(ms), 0, 22);
  }

  /**
   The group name reaches exactly one line, the group's edit line, verbatim; every
   other line of the script is the same whatever the name.
   */
  lemma GroupNameIsolated(lines: seq<string>, g1: string, g2: string)
    ensures |Layout(lines, g1)| == |Layout(lines, g2)|
    ensures var r1 := Layout(lines, g1); var r2 := Layout(lines, g2);
      && r1[|r1| - 4] == "    edit \"" + g1 + "\""
      && forall i :: 0 <= i < |r1| && i != |r1| - 4 ==> r1[i] == r2[i]
  {
    var ms := AcceptedMacs(lines);
    var head := [AddressHeader] + AddressEntries(ms) + [End, AddrgrpHeader];
    var rest := [AppendLine(ms), Next, End];
    assert Layout(lines, g1) == head + [EditLine(g1)] + rest;
    assert Layout(lines, g2) == head + [EditLine(g2)] + rest;
  }

  /** With no line at all, both blocks are empty: the append line is the bare prefix. */
  lemma EmptyInput(grp: string)
    ensures Layout([], grp) == ["config firewall address", "end", "\nconfig firewall addrgrp",
      "    edit \"" + grp + "\"", "        append member ", "    next", "end"]
  {
    assert MemberList([]) == [];
    assert AppendLine([]) == "        " + AppendPrefix + [];
    assert "        " + AppendPrefix + [] == "        append member ";
  }

  /**
   Only the colon form is accepted: of a colon-form line, a word and a
   hyphen-form line, the hyphen-form address is dropped like the word.
   */
  lemma ColonFormOnly()
    ensures AcceptedMacs(["00:00:5E:00:53:01", "invalid-token", "00-00-5e-00-53-02"]) == ["00:00:5e:00:53:01"]
  {
    var a, b, c := "00:00:5E:00:53:01", "invalid-token", "00-00-5e-00-53-02";
    ExampleVerdicts();
    RejectedPairIgnored([a], b, c);
    assert [a] + [b, c] == [a, b, c];
    AcceptedMacsSingle(a);
    LowerExample();
  }

  /** Two rejected lines at the end add no name. */
  lemma RejectedPairIgnored(lines: seq<string>, b: string, c: string)
    requires !ValidateMac(b) && !ValidateMac(c)
    ensures AcceptedMacs(lines + [b, c]) == AcceptedMacs(lines)
  {
    RejectedSnoc(lines, b);
    RejectedSnoc(lines + [b], c);
    Seqs.AppendAssoc(lines, [b], [c]);
    assert [b] + [c] == [b, c];
  }

  /** Appending a rejected line adds no name. */
  lemma RejectedSnoc(lines: seq<string>, mac: string)
    requires !ValidateMac(mac)
    ensures AcceptedMacs(lines + [mac]) == AcceptedMacs(lines)
  {
    assert (lines + [mac])[..|lines|] == lines;
  }

  lemma ExampleVerdicts()
    ensures ValidateMac("00:00:5E:00:53:01")
    ensures !ValidateMac("invalid-token")
    ensures !ValidateMac("00-00-5e-00-53-02")
  {
    var a := "00:00:5E:00:53:01";
    forall i | 0 <= i < |a| ensures PositionOk(a, i) {
    }
    assert !PositionOk("00-00-5e-00-53-02", 2);
  }


  lemma LowerExample()
    ensures Lower("00:00:5E:00:53:01") == "00:00:5e:00:53:01"
  {
  }

}
