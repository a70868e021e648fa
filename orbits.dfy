/** Day 6, `day6.rs`, part 1: reading `A)B` lines ("B orbits A") into a map
    from each orbiting body to the bodies it orbits, counting the direct and
    indirect orbits of a body recursively, and adding the counts up over every
    body in the map.

    A panic of the source (a line without `)`) is `None` here. Counts are
    `i32`; they are not wrapped. */
module Orbits {
  import opened Results
  import opened Text

  /** `Map`: for each body, the bodies it orbits, in the order of the lines
      that name them. */
  datatype Map = Map(orbits: map<string, seq<string>>)

  // ---------------------------------------------------------------------------
  // Reading the map
  // ---------------------------------------------------------------------------

  /** The line holds a `)`: it splits into two or more pieces, so both
      `unwrap`s succeed. */
  predicate IsOrbitLine(line: string)
  {
    ')' in line
  }

  /** The body orbited: the trimmed text before the first `)`. */
  function Centre(line: string): string
    requires IsOrbitLine(line)
  {
    SplitInTwo(line, ')');
    Trim(Split(line, ')')[0])
  }

  /** The orbiting body: the trimmed text after the first `)`, up to any
      second one. */
  function Orbiter(line: string): string
    requires IsOrbitLine(line)
  {
    SplitInTwo(line, ')');
    Trim(Split(line, ')')[1])
  }

  /** The fold's closure: append the centre to the orbiter's list, creating
      the list on its first line; a line that does not split in two panics. */
  function AddLine(m: Map, line: string): Option<Map>
  {
    if |Split(line, ')')| < 2 then None
    else
      SplitInTwo(line, ')');
      var key, value := Orbiter(line), Centre(line);
      if key in m.orbits then Some(Map(m.orbits[key := m.orbits[key] + [value]]))
      else Some(Map(m.orbits[key := [value]]))
  }

  /** The fold over the lines, from the empty map. */
  function ReadLines(lines: seq<string>): Option<Map>
  {
    if lines == [] then Some(Map(map[]))
    else
      match ReadLines(lines[..|lines| - 1])
      case None => None
      case Some(m) => AddLine(m, lines[|lines| - 1])
  }

  /** `input_generator_part1`. */
  function InputGeneratorPart1(text: string): Option<Map>
  {
    ReadLines(Lines(text))
  }

  /** The centres named for `key`, in line order: what the map should hold. */
  function CentresOf(lines: seq<string>, key: string): seq<string>
    requires forall i :: 0 <= i < |lines| ==> IsOrbitLine(lines[i])
  {
    if lines == [] then []
    else
      var last := lines[|lines| - 1];
      CentresOf(lines[..|lines| - 1], key) + if Orbiter(last) == key then [Centre(last)] else []
  }

  /** The lines are read exactly when every one has a `)`. */
  lemma {:induction false} ReadLinesSucceeds(lines: seq<string>)
    ensures ReadLines(lines).Some? <==> forall i :: 0 <= i < |lines| ==> IsOrbitLine(lines[i])
  {
    if lines != [] {
      var init, last := lines[..|lines| - 1], lines[|lines| - 1];
      ReadLinesSucceeds(init);
      assert lines == init + [last];
      if ReadLines(init).Some? {
        AddLineSucceeds(ReadLines(init).value, last);
      }
    }
  }

  lemma AddLineSucceeds(m: Map, line: string)
    ensures AddLine(m, line).Some? <==> IsOrbitLine(line)
  {
    SplitInTwo(line, ')');
  }

  /** Read lines give an entry for exactly the bodies some line names as
      orbiting, holding the centres of those lines in line order. */
  lemma {:induction false} ReadLinesContents(lines: seq<string>)
    requires forall i :: 0 <= i < |lines| ==> IsOrbitLine(lines[i])
    ensures ReadLines(lines).Some?
    ensures forall key :: && (key in ReadLines(lines).value.orbits <==> CentresOf(lines, key) != [])
                          && (key in ReadLines(lines).value.orbits ==>
                                ReadLines(lines).value.orbits[key] == CentresOf(lines, key))
  {
    if lines != [] {
      var init := lines[..|lines| - 1];
      assert forall i :: 0 <= i < |init| ==> init[i] == lines[i];
      ReadLinesContents(init);
      ReadLinesSucceeds(lines);
    }
  }

  lemma SplitAtOne(centre: string, orbiter: string)
    requires ')' !in centre && ')' !in orbiter
    ensures Split(centre + ")" + orbiter, ')') == [centre, orbiter]
  {
    var parts := [centre, orbiter];
    assert parts[1..] == [orbiter];
    assert Join(parts, ')') == centre + ")" + orbiter;
    SplitJoin(parts, ')');
  }

  /** A line `centre)orbiter` of trimmed, `)`-free names appends the centre to
      the orbiter's list. */
  lemma AddNamedLine(m: Map, centre: string, orbiter: string)
    requires ')' !in centre && ')' !in orbiter && Trim(centre) == centre && Trim(orbiter) == orbiter
    ensures AddLine(m, centre + ")" + orbiter)
         == Some(Map(if orbiter in m.orbits then m.orbits[orbiter := m.orbits[orbiter] + [centre]]
                     else m.orbits[orbiter := [centre]]))
  {
    SplitAtOne(centre, orbiter);
  }

  /** A name as the lines write it: no `)`, no line feed, and no white space
      at either end. */
  predicate IsName(s: string)
  {
    s != [] && ')' !in s && '\n' !in s && !IsSpace(s[0]) && !IsSpace(s[|s| - 1])
  }

  /** A line `centre)orbiter` indented by white space reads like the same line
      without the indentation. */
  lemma AddIndentedLine(m: Map, indent: string, centre: string, orbiter: string)
    requires forall k :: 0 <= k < |indent| ==> IsSpace(indent[k])
    requires IsName(centre) && IsName(orbiter)
    ensures AddLine(m, indent + centre + ")" + orbiter)
         == Some(Map(if orbiter in m.orbits then m.orbits[orbiter := m.orbits[orbiter] + [centre]]
                     else m.orbits[orbiter := [centre]]))
  {
    assert ')' !in indent + centre by {
      forall k | 0 <= k < |indent + centre|
        ensures (indent + centre)[k] != ')'
      {
        if k < |indent| {
          assert IsSpace(indent[k]);
        } else {
          assert (indent + centre)[k] == centre[k - |indent|];
        }
      }
    }
    SplitAtOne(indent + centre, orbiter);
    TrimPadded(indent, centre);
    TrimPadded("", orbiter);
    assert "" + orbiter == orbiter;
  }

  /** Reading one more indented line naming a new orbiter adds its entry. */
  lemma ReadOneMore(lines: seq<string>, m: Map, indent: string, centre: string, orbiter: string)
    requires ReadLines(lines) == Some(m) && orbiter !in m.orbits
    requires forall k :: 0 <= k < |indent| ==> IsSpace(indent[k])
    requires IsName(centre) && IsName(orbiter)
    ensures ReadLines(lines + [indent + centre + ")" + orbiter]) == Some(Map(m.orbits[orbiter := [centre]]))
  {
    var all := lines + [indent + centre + ")" + orbiter];
    assert all[..|all| - 1] == lines;
    AddIndentedLine(m, indent, centre, orbiter);
  }

  /** Line `i` names `centres[i]` and `orbiters[i]`, indented by `indents[i]`. */
  function IndentedLines(indents: seq<string>, centres: seq<string>, orbiters: seq<string>): (lines: seq<string>)
    requires |indents| == |centres| == |orbiters|
    ensures |lines| == |orbiters|
    ensures forall i :: 0 <= i < |lines| ==> lines[i] == indents[i] + centres[i] + ")" + orbiters[i]
  {
    if orbiters == [] then []
    else
      var n := |orbiters| - 1;
      IndentedLines(indents[..n], centres[..n], orbiters[..n]) + [indents[n] + centres[n] + ")" + orbiters[n]]
  }

  /** Indented lines that each name a different orbiter are read as the map
      from each orbiter to its one centre. */
  lemma {:induction false} ReadIndentedLines(indents: seq<string>, centres: seq<string>, orbiters: seq<string>)
    requires |indents| == |centres| == |orbiters|
    requires forall i, k :: 0 <= i < |indents| && 0 <= k < |indents[i]| ==> IsSpace(indents[i][k])
    requires forall i :: 0 <= i < |orbiters| ==> IsName(centres[i]) && IsName(orbiters[i])
    requires forall i, j :: 0 <= i < j < |orbiters| ==> orbiters[i] != orbiters[j]
    ensures ReadLines(IndentedLines(indents, centres, orbiters)).Some?
    ensures var m := ReadLines(IndentedLines(indents, centres, orbiters)).value.orbits;
            && (forall key :: key in m <==> key in orbiters)
            && (forall i :: 0 <= i < |orbiters| ==> m[orbiters[i]] == [centres[i]])
  {
    if orbiters != [] {
      var n := |orbiters| - 1;
      assert orbiters == orbiters[..n] + [orbiters[n]];
      assert centres == centres[..n] + [centres[n]];
      ReadIndentedLines(indents[..n], centres[..n], orbiters[..n]);
      var firstLines := IndentedLines(indents[..n], centres[..n], orbiters[..n]);
      assert orbiters[n] !in orbiters[..n];
      ReadIndentedStep(firstLines, ReadLines(firstLines).value, centres[..n], orbiters[..n], indents[n], centres[n], orbiters[n]);
      assert IndentedLines(indents, centres, orbiters) == firstLines + [indents[n] + centres[n] + ")" + orbiters[n]];
    }
  }

  /** The step of `ReadIndentedLines`: one more line naming a new orbiter. */
  lemma ReadIndentedStep(lines: seq<string>, m: Map, centres: seq<string>, orbiters: seq<string>,
                         indent: string, centre: string, orbiter: string)
    requires ReadLines(lines) == Some(m) && |centres| == |orbiters|
    requires forall key :: key in m.orbits <==> key in orbiters
    requires forall i :: 0 <= i < |orbiters| ==> m.orbits[orbiters[i]] == [centres[i]]
    requires orbiter !in orbiters
    requires forall k :: 0 <= k < |indent| ==> IsSpace(indent[k])
    requires IsName(centre) && IsName(orbiter)
    ensures ReadLines(lines + [indent + centre + ")" + orbiter]).Some?
    ensures var after := ReadLines(lines + [indent + centre + ")" + orbiter]).value.orbits;
            && (forall key :: key in after <==> key in orbiters + [orbiter])
            && (forall i :: 0 <= i < |orbiters| + 1 ==> after[(orbiters + [orbiter])[i]] == [(centres + [centre])[i]])
  {
    ReadOneMore(lines, m, indent, centre, orbiter);
  }

  /** Two lines `a)b` and `b)c` give `b` orbiting `a` and `c` orbiting `b`. */
  lemma ReadChainOfTwo(a: string, b: string, c: string)
    requires ')' !in a && ')' !in b && ')' !in c && b != c
    requires Trim(a) == a && Trim(b) == b && Trim(c) == c
    ensures ReadLines([a + ")" + b, b + ")" + c]) == Some(Map(map[b := [a], c := [b]]))
  {
    var lines := [a + ")" + b, b + ")" + c];
    var first := Map(map[b := [a]]);
    AddNamedLine(Map(map[]), a, b);
    AddNamedLine(first, b, c);
    assert lines[..1] == [a + ")" + b];
    assert lines[..1][..0] == [];
    assert ReadLines(lines[..1]) == Some(first);
  }

  /** Two lines of the puzzle's map. */
  lemma ReadTwoLines()
    ensures ReadLines(["COM)B", "B)C"]) == Some(Map(map["B" := ["COM"], "C" := ["B"]]))
  {
    TrimPadded("", "COM");
    TrimPadded("", "B");
    TrimPadded("", "C");
    assert "" + "COM" == "COM" && "" + "B" == "B" && "" + "C" == "C";
    ReadChainOfTwo("COM", "B", "C");
    assert "COM" + ")" + "B" == "COM)B" && "B" + ")" + "C" == "B)C";
  }

  // ---------------------------------------------------------------------------
  // Counting orbits
  // ---------------------------------------------------------------------------

  /** `rank` grows from every body to each body orbiting it: the orbit
      relation has no cycle, which is what ends the recursion of
      `number_of_orbits`. */
  predicate Ranked(m: Map, rank: string -> nat)
  {
    forall planet, i :: planet in m.orbits && 0 <= i < |m.orbits[planet]| ==>
      rank(m.orbits[planet][i]) < rank(planet)
  }

  /** `Map::number_of_orbits`: 0 for a body without an entry, and otherwise
      the fold over the bodies it orbits. */
  function NumberOfOrbits(m: Map, rank: string -> nat, planet: string): nat
    requires Ranked(m, rank)
    decreases rank(planet), 1, 0
  {
    if planet in m.orbits then FoldOrbits(m, rank, planet, |m.orbits[planet]|) else 0
  }

  /** The fold of `number_of_orbits` over the first `i` bodies `planet`
      orbits: each adds its own count and the length of the whole list. */
  function FoldOrbits(m: Map, rank: string -> nat, planet: string, i: nat): nat
    requires Ranked(m, rank) && planet in m.orbits && i <= |m.orbits[planet]|
    decreases rank(planet), 0, i
  {
    if i == 0 then 0
    else
      var centres := m.orbits[planet];
      FoldOrbits(m, rank, planet, i - 1) + NumberOfOrbits(m, rank, centres[i - 1]) + |centres|
  }

  /** The counts of the first `i` bodies `planet` orbits, added up. */
  function CentresTotal(m: Map, rank: string -> nat, planet: string, i: nat): nat
    requires Ranked(m, rank) && planet in m.orbits && i <= |m.orbits[planet]|
  {
    if i == 0 then 0
    else CentresTotal(m, rank, planet, i - 1) + NumberOfOrbits(m, rank, m.orbits[planet][i - 1])
  }

  /** The fold over `i` of the `k` centres adds their counts and `i * k`. */
  lemma {:induction false} FoldOrbitsClosedForm(m: Map, rank: string -> nat, planet: string, i: nat)
    requires Ranked(m, rank) && planet in m.orbits && i <= |m.orbits[planet]|
    ensures FoldOrbits(m, rank, planet, i) == CentresTotal(m, rank, planet, i) + i * |m.orbits[planet]|
  {
    if i > 0 {
      FoldOrbitsClosedForm(m, rank, planet, i - 1);
      assert (i - 1) * |m.orbits[planet]| + |m.orbits[planet]| == i * |m.orbits[planet]|;
    }
  }

  /** A body without an entry orbits nothing; a body with `k` entries counts
      the counts of its centres plus `k` for each of them. */
  lemma NumberOfOrbitsCases(m: Map, rank: string -> nat, planet: string)
    requires Ranked(m, rank)
    ensures planet !in m.orbits ==> NumberOfOrbits(m, rank, planet) == 0
    ensures planet in m.orbits ==>
              var k := |m.orbits[planet]|;
              NumberOfOrbits(m, rank, planet) == CentresTotal(m, rank, planet, k) + k * k
  {
    if planet in m.orbits {
      FoldOrbitsClosedForm(m, rank, planet, |m.orbits[planet]|);
    }
  }

  /** A body orbiting exactly one other has one orbit more than it. */
  lemma SingleCentre(m: Map, rank: string -> nat, planet: string)
    requires Ranked(m, rank)
    requires planet in m.orbits && |m.orbits[planet]| == 1
    ensures NumberOfOrbits(m, rank, planet) == NumberOfOrbits(m, rank, m.orbits[planet][0]) + 1
  {
    NumberOfOrbitsCases(m, rank, planet);
  }

  /** `path` leads from its first body through single centres to a body with
      no entry. */
  predicate IsChain(m: Map, path: seq<string>)
  {
    && |path| >= 1
    && path[|path| - 1] !in m.orbits
    && forall i :: 0 <= i < |path| - 1 ==> path[i] in m.orbits && m.orbits[path[i]] == [path[i + 1]]
  }

  /** Where every body orbits a single other, the count of a body is its
      number of direct and indirect orbits: the steps down to the body that
      orbits nothing. */
  lemma {:induction false} ChainDepth(m: Map, rank: string -> nat, path: seq<string>)
    requires Ranked(m, rank) && IsChain(m, path)
    ensures NumberOfOrbits(m, rank, path[0]) == |path| - 1
  {
    if |path| > 1 {
      assert IsChain(m, path[1..]);
      ChainDepth(m, rank, path[1..]);
      SingleCentre(m, rank, path[0]);
    }
  }

  /** The count does not depend on the ranking that shows it is defined. */
  lemma {:induction false} RankIrrelevant(m: Map, rank: string -> nat, rank': string -> nat, planet: string)
    requires Ranked(m, rank) && Ranked(m, rank')
    ensures NumberOfOrbits(m, rank, planet) == NumberOfOrbits(m, rank', planet)
    decreases rank(planet), 1, 0
  {
    if planet in m.orbits {
      FoldRankIrrelevant(m, rank, rank', planet, |m.orbits[planet]|);
    }
  }

  lemma {:induction false} FoldRankIrrelevant(m: Map, rank: string -> nat, rank': string -> nat,
                                             planet: string, i: nat)
    requires Ranked(m, rank) && Ranked(m, rank') && planet in m.orbits && i <= |m.orbits[planet]|
    ensures FoldOrbits(m, rank, planet, i) == FoldOrbits(m, rank', planet, i)
    decreases rank(planet), 0, i
  {
    if i > 0 {
      FoldRankIrrelevant(m, rank, rank', planet, i - 1);
      RankIrrelevant(m, rank, rank', m.orbits[planet][i - 1]);
    }
  }

  // ---------------------------------------------------------------------------
  // The puzzle's example
  // ---------------------------------------------------------------------------

  /** The text of the unit test: the first line flush left, each later line
      indented by four spaces, and no final line feed. It is written nested
      the way `Join` builds it. */
  const ExampleText :=
    "COM)B" + "\n" + (
    "    B)C" + "\n" + (
    "    C)D" + "\n" + (
    "    D)E" + "\n" + (
    "    E)F" + "\n" + (
    "    B)G" + "\n" + (
    "    G)H" + "\n" + (
    "    D)I" + "\n" + (
    "    E)J" + "\n" + (
    "    J)K" + "\n" + (
    "    K)L"))))))))))

  /** The test text's lines, indentation kept. */
  const ExampleLines := ["COM)B", "    B)C", "    C)D", "    D)E", "    E)F", "    B)G",
                         "    G)H", "    D)I", "    E)J", "    J)K", "    K)L"]

  /** The map `input_generator_part1` builds from the test text (see
      `ExampleGenerated`). */
  const Example := Map(map[
    "B" := ["COM"], "C" := ["B"], "D" := ["C"], "E" := ["D"], "F" := ["E"], "G" := ["B"],
    "H" := ["G"], "I" := ["D"], "J" := ["E"], "K" := ["J"], "L" := ["K"]])

  /** Eleven lines joined at line feeds, written out. */
  lemma JoinEleven(lines: seq<string>)
    requires |lines| == 11
    ensures Join(lines, '\n') == lines[0] + "\n" + (lines[1] + "\n" + (lines[2] + "\n" + (lines[3] + "\n" + (lines[4] + "\n" + (lines[5] + "\n" + (lines[6] + "\n" + (lines[7] + "\n" + (lines[8] + "\n" + (lines[9] + "\n" + (lines[10]))))))))))
  {
    assert lines[10..] == [lines[10]];
    assert lines[9..][1..] == lines[10..];
    assert Join(lines[9..], '\n') == lines[9] + "\n" + (lines[10]);
    assert lines[8..][1..] == lines[9..];
    assert Join(lines[8..], '\n') == lines[8] + "\n" + (lines[9] + "\n" + (lines[10]));
    assert lines[7..][1..] == lines[8..];
    assert Join(lines[7..], '\n') == lines[7] + "\n" + (lines[8] + "\n" + (lines[9] + "\n" + (lines[10])));
    assert lines[6..][1..] == lines[7..];
    assert Join(lines[6..], '\n') == lines[6] + "\n" + (lines[7] + "\n" + (lines[8] + "\n" + (lines[9] + "\n" + (lines[10]))));
    assert lines[5..][1..] == lines[6..];
    assert Join(lines[5..], '\n') == lines[5] + "\n" + (lines[6] + "\n" + (lines[7] + "\n" + (lines[8] + "\n" + (lines[9] + "\n" + (lines[10])))));
    assert lines[4..][1..] == lines[5..];
    assert Join(lines[4..], '\n') == lines[4] + "\n" + (lines[5] + "\n" + (lines[6] + "\n" + (lines[7] + "\n" + (lines[8] + "\n" + (lines[9] + "\n" + (lines[10]))))));
    assert lines[3..][1..] == lines[4..];
    assert Join(lines[3..], '\n') == lines[3] + "\n" + (lines[4] + "\n" + (lines[5] + "\n" + (lines[6] + "\n" + (lines[7] + "\n" + (lines[8] + "\n" + (lines[9] + "\n" + (lines[10])))))));
    assert lines[2..][1..] == lines[3..];
    assert Join(lines[2..], '\n') == lines[2] + "\n" + (lines[3] + "\n" + (lines[4] + "\n" + (lines[5] + "\n" + (lines[6] + "\n" + (lines[7] + "\n" + (lines[8] + "\n" + (lines[9] + "\n" + (lines[10]))))))));
    assert lines[1..][1..] == lines[2..];
    assert Join(lines[1..], '\n') == lines[1] + "\n" + (lines[2] + "\n" + (lines[3] + "\n" + (lines[4] + "\n" + (lines[5] + "\n" + (lines[6] + "\n" + (lines[7] + "\n" + (lines[8] + "\n" + (lines[9] + "\n" + (lines[10])))))))));
    assert lines[0..][1..] == lines[1..];
    assert Join(lines[0..], '\n') == lines[0] + "\n" + (lines[1] + "\n" + (lines[2] + "\n" + (lines[3] + "\n" + (lines[4] + "\n" + (lines[5] + "\n" + (lines[6] + "\n" + (lines[7] + "\n" + (lines[8] + "\n" + (lines[9] + "\n" + (lines[10]))))))))));
    assert lines[0..] == lines;
  }

  /** The test text is its lines joined at line feeds. */
  lemma ExampleTextJoined()
    ensures Join(ExampleLines, '\n') == ExampleText
  {
    JoinEleven(["COM)B", "    B)C", "    C)D", "    D)E", "    E)F", "    B)G",
                "    G)H", "    D)I", "    E)J", "    J)K", "    K)L"]);
  }

  /** `lines` splits the test text into its eleven lines. */
  lemma ExampleTextLines()
    ensures Lines(ExampleText) == ExampleLines
  {
    forall i | 0 <= i < |ExampleLines|
      ensures '\n' !in ExampleLines[i]
    {
    }
    LinesOfJoin(ExampleLines);
    ExampleTextJoined();
  }

  /** The test's lines, taken apart into indentation, centre and orbiter. */
  const ExampleIndents := ["", "    ", "    ", "    ", "    ", "    ", "    ", "    ", "    ", "    ", "    "]
  const ExampleCentres := ["COM", "B", "C", "D", "E", "B", "G", "D", "E", "J", "K"]
  const ExampleOrbiters := ["B", "C", "D", "E", "F", "G", "H", "I", "J", "K", "L"]

  lemma ExampleLinesApart()
    ensures IndentedLines(ExampleIndents, ExampleCentres, ExampleOrbiters) == ExampleLines
  {
    var lines := IndentedLines(ExampleIndents, ExampleCentres, ExampleOrbiters);
    forall i | 0 <= i < |lines|
      ensures lines[i] == ExampleLines[i]
    {
    }
  }

  /** A map keyed by the test's orbiters, each holding its one centre, is
      `Example`'s. */
  lemma ExampleByEntries(m: map<string, seq<string>>)
    requires forall key :: key in m <==> key in ExampleOrbiters
    requires forall i :: 0 <= i < |ExampleOrbiters| ==> m[ExampleOrbiters[i]] == [ExampleCentres[i]]
    ensures m == Example.orbits
  {
    ExampleKeys(m);
    ExampleValues(m);
    ExampleByValues(m);
  }

  lemma ExampleKeys(m: map<string, seq<string>>)
    requires forall key :: key in m <==> key in ExampleOrbiters
    ensures m.Keys == Example.orbits.Keys
  {
    forall key
      ensures key in m <==> key in Example.orbits
    {
    }
  }

  lemma ExampleValues(m: map<string, seq<string>>)
    requires forall i :: 0 <= i < |ExampleOrbiters| ==> ExampleOrbiters[i] in m && m[ExampleOrbiters[i]] == [ExampleCentres[i]]
    ensures "B" in m && "C" in m && "D" in m && "E" in m && "F" in m && "G" in m
    ensures "H" in m && "I" in m && "J" in m && "K" in m && "L" in m
    ensures m["B"] == ["COM"] && m["C"] == ["B"] && m["D"] == ["C"] && m["E"] == ["D"] && m["F"] == ["E"] && m["G"] == ["B"] && m["H"] == ["G"] && m["I"] == ["D"] && m["J"] == ["E"] && m["K"] == ["J"] && m["L"] == ["K"]
  {
    assert m[ExampleOrbiters[0]] == m["B"];
    assert m[ExampleOrbiters[1]] == m["C"];
    assert m[ExampleOrbiters[2]] == m["D"];
    assert m[ExampleOrbiters[3]] == m["E"];
    assert m[ExampleOrbiters[4]] == m["F"];
    assert m[ExampleOrbiters[5]] == m["G"];
    assert m[ExampleOrbiters[6]] == m["H"];
    assert m[ExampleOrbiters[7]] == m["I"];
    assert m[ExampleOrbiters[8]] == m["J"];
    assert m[ExampleOrbiters[9]] == m["K"];
    assert m[ExampleOrbiters[10]] == m["L"];
  }

  lemma ExampleByValues(m: map<string, seq<string>>)
    requires m.Keys == Example.orbits.Keys
    requires m["B"] == ["COM"] && m["C"] == ["B"] && m["D"] == ["C"] && m["E"] == ["D"] && m["F"] == ["E"] && m["G"] == ["B"] && m["H"] == ["G"] && m["I"] == ["D"] && m["J"] == ["E"] && m["K"] == ["J"] && m["L"] == ["K"]
    ensures m == Example.orbits
  {
  }

  /** The fold over the test's lines builds `Example`: the indentation is
      trimmed off and every line names a new orbiter. */
  lemma ExampleLinesRead()
    ensures ReadLines(ExampleLines) == Some(Example)
  {
    forall i | 0 <= i < |ExampleOrbiters|
      ensures IsName(ExampleCentres[i]) && IsName(ExampleOrbiters[i])
    {
    }
    ReadIndentedLines(ExampleIndents, ExampleCentres, ExampleOrbiters);
    ExampleLinesApart();
    ExampleByEntries(ReadLines(ExampleLines).value.orbits);
  }

  /** The unit test's parsing half: `input_generator_part1` reads the test
      text as `Example`. */
  lemma ExampleGenerated()
    ensures InputGeneratorPart1(ExampleText) == Some(Example)
  {
    ExampleTextLines();
    ExampleLinesRead();
  }

  /** Each body's distance from COM. */
  function ExampleRank(planet: string): nat
  {
    match planet
    case "B" => 1
    case "C" => 2
    case "G" => 2
    case "D" => 3
    case "H" => 3
    case "E" => 4
    case "I" => 4
    case "F" => 5
    case "J" => 5
    case "K" => 6
    case "L" => 7
    case _ => 0
  }

  lemma ExampleRanked()
    ensures Ranked(Example, ExampleRank)
  {
    forall planet, i | planet in Example.orbits && 0 <= i < |Example.orbits[planet]|
      ensures ExampleRank(Example.orbits[planet][i]) < ExampleRank(planet)
    {
      assert i == 0;
    }
  }

  lemma ExampleChainFromL()
    ensures IsChain(Example, ["L", "K", "J", "E", "D", "C", "B", "COM"])
  {
    var path := ["L", "K", "J", "E", "D", "C", "B", "COM"];
    forall i | 0 <= i < |path| - 1
      ensures path[i] in Example.orbits && Example.orbits[path[i]] == [path[i + 1]]
    {
    }
  }

  /** The unit test: the map read from the test text has no cycle, and L
      orbits K directly and six bodies down to COM indirectly. */
  lemma ExampleOrbitsOfL()
    ensures InputGeneratorPart1(ExampleText) == Some(Example)
    ensures Ranked(Example, ExampleRank)
    ensures NumberOfOrbits(Example, ExampleRank, "L") == 7
  {
    ExampleGenerated();
    ExampleRanked();
    ExampleChainFromL();
    ChainDepth(Example, ExampleRank, ["L", "K", "J", "E", "D", "C", "B", "COM"]);
  }

  // ---------------------------------------------------------------------------
  // Adding up
  // ---------------------------------------------------------------------------

  /** The fold of `solve_part1` over the keys in the order given. */
  function SumOverKeys(m: Map, rank: string -> nat, keys: seq<string>): nat
    requires Ranked(m, rank)
  {
    if keys == [] then 0
    else SumOverKeys(m, rank, keys[..|keys| - 1]) + NumberOfOrbits(m, rank, keys[|keys| - 1])
  }

  /** `solve_part1`: the counts of all bodies in the map, added up in the
      order in which the map yields its keys. That order is not specified,
      so it is a parameter: any listing of the keys, each once. */
  function SolvePart1(m: Map, rank: string -> nat, keys: seq<string>): (total: nat)
    requires Ranked(m, rank)
    requires |keys| == |m.orbits.Keys| && forall key :: key in m.orbits <==> key in keys
    ensures forall i :: 0 <= i < |keys| ==> NumberOfOrbits(m, rank, keys[i]) <= total
  {
    SumOverKeysBound(m, rank, keys);
    SumOverKeys(m, rank, keys)
  }

  lemma {:induction false} SumOverKeysBound(m: Map, rank: string -> nat, keys: seq<string>)
    requires Ranked(m, rank)
    ensures forall i :: 0 <= i < |keys| ==> NumberOfOrbits(m, rank, keys[i]) <= SumOverKeys(m, rank, keys)
  {
    if keys != [] {
      var init := keys[..|keys| - 1];
      SumOverKeysBound(m, rank, init);
      assert forall i :: 0 <= i < |init| ==> init[i] == keys[i];
    }
  }

  /** Dropping the key at `j` takes its count off the sum. */
  lemma {:induction false} SumOverKeysRemove(m: Map, rank: string -> nat, keys: seq<string>, j: nat)
    requires Ranked(m, rank) && j < |keys|
    ensures SumOverKeys(m, rank, keys)
         == SumOverKeys(m, rank, keys[..j] + keys[j + 1..]) + NumberOfOrbits(m, rank, keys[j])
  {
    var last := |keys| - 1;
    if j == last {
      assert keys[..j] + keys[j + 1..] == keys[..last];
    } else {
      var init := keys[..last];
      SumOverKeysRemove(m, rank, init, j);
      var rest := keys[..j] + keys[j + 1..];
      assert rest[..|rest| - 1] == init[..j] + init[j + 1..];
      assert rest[|rest| - 1] == keys[last];
    }
  }

  /** The sum is the same in every order: the unspecified iteration order of
      the map does not change the answer. */
  lemma {:induction false} SumOverKeysPermutation(m: Map, rank: string -> nat, keys: seq<string>, keys': seq<string>)
    requires Ranked(m, rank) && multiset(keys) == multiset(keys')
    ensures SumOverKeys(m, rank, keys) == SumOverKeys(m, rank, keys')
    decreases |keys|
  {
    if keys != [] {
      var last := |keys| - 1;
      var x := keys[last];
      assert keys == keys[..last] + [x];
      assert x in multiset(keys');
      var j :| 0 <= j < |keys'| && keys'[j] == x;
      var rest := keys'[..j] + keys'[j + 1..];
      assert keys' == keys'[..j] + [x] + keys'[j + 1..];
      assert multiset(keys') == multiset(keys'[..j]) + multiset{x} + multiset(keys'[j + 1..]);
      assert multiset(rest) == multiset(keys'[..j]) + multiset(keys'[j + 1..]);
      assert multiset(keys) == multiset(keys[..last]) + multiset{x};
      assert multiset(keys[..last]) == multiset(keys) - multiset{x};
      assert multiset(rest) == multiset(keys') - multiset{x};
      SumOverKeysRemove(m, rank, keys', j);
      SumOverKeysPermutation(m, rank, keys[..last], rest);
    }
  }

  /** Two listings of the keys give the same answer. */
  lemma SolvePart1OrderIndependent(m: Map, rank: string -> nat, keys: seq<string>, keys': seq<string>)
    requires Ranked(m, rank)
    requires |keys| == |m.orbits.Keys| && forall key :: key in m.orbits <==> key in keys
    requires |keys'| == |m.orbits.Keys| && forall key :: key in m.orbits <==> key in keys'
    ensures SolvePart1(m, rank, keys) == SolvePart1(m, rank, keys')
  {
    ListingMultiset(m.orbits.Keys, keys);
    ListingMultiset(m.orbits.Keys, keys');
    SumOverKeysPermutation(m, rank, keys, keys');
  }

  /** A listing of a finite set with as many entries as the set has elements
      holds each element once. */
  lemma {:induction false} ListingMultiset(s: set<string>, keys: seq<string>)
    requires |keys| == |s| && forall key :: key in s <==> key in keys
    ensures multiset(keys) == multiset(s)
    decreases |keys|
  {
    if keys != [] {
      var last := |keys| - 1;
      var x := keys[last];
      var init := keys[..last];
      assert keys == init + [x];
      if x in init {
        // Then `init` covers `s` with fewer entries than it has elements.
        assert forall key :: key in s <==> key in init;
        SeqCoversSet(s, init);
        assert false;
      }
      assert forall key :: key in s - {x} <==> key in init;
      ListingMultiset(s - {x}, init);
    }
  }

  /** A sequence holding every element of a set is at least as long. */
  lemma {:induction false} SeqCoversSet(s: set<string>, keys: seq<string>)
    requires forall key :: key in s ==> key in keys
    ensures |s| <= |keys|
    decreases |keys|
  {
    if keys != [] {
      var last := |keys| - 1;
      SeqCoversSet(s - {keys[last]}, keys[..last]);
    }
  }
}
