/**
 * The comma-separated technology list of the project forms: the parser applied to
 * the submitted text when a project is added or edited, and the renderer that
 * prefills the edit form.
 */
module TechList {
  import opened Wrappers
  import opened Strings

  /** A name the parser can produce: non-empty, without surrounding whitespace, without a comma. */
  predicate IsTechName(n: string)
  {
    n != "" && StrippedOf(n, Whitespace) && ',' !in n
  }

  /** Stripping a string keeps only characters it already had. */
  lemma TrimKeepsMissing(s: string, c: char)
    ensures c !in s ==> c !in Trim(s)
  {
    var r := Trim(s);
    StripSurrounded(s, Whitespace);
    SliceKeepsMissing(s, r, |s| - |LStrip(s, Whitespace)|, c);
  }

  /** What one piece contributes: its stripped text, unless that is empty. */
  function KeepPiece(p: string): seq<string>
  {
    if Trim(p) == "" then [] else [Trim(p)]
  }

  /** `[t.strip() for t in pieces if t.strip()]`. */
  function KeepTrimmed(pieces: seq<string>): seq<string>
  {
    if |pieces| == 0 then [] else KeepPiece(pieces[0]) + KeepTrimmed(pieces[1..])
  }

  /** Every element is a name the parser can produce. */
  predicate AllTechNames(names: seq<string>)
  {
    forall k :: 0 <= k < |names| ==> IsTechName(names[k])
  }

  lemma AllTechNamesConcat(a: seq<string>, b: seq<string>)
    requires AllTechNames(a) && AllTechNames(b)
    ensures AllTechNames(a + b)
  {
  }

  /** A comma-free piece contributes only names the parser can produce. */
  lemma KeepPieceNames(p: string)
    requires ',' !in p
    ensures AllTechNames(KeepPiece(p))
  {
    TrimKeepsMissing(p, ',');
  }

  /** Comma-free pieces give names the parser can produce. */
  lemma {:induction false} KeepTrimmedCommaFree(pieces: seq<string>)
    requires forall k :: 0 <= k < |pieces| ==> ',' !in pieces[k]
    ensures AllTechNames(KeepTrimmed(pieces))
    decreases |pieces|
  {
    if |pieces| > 0 {
      KeepPieceNames(pieces[0]);
      KeepTrimmedCommaFree(pieces[1..]);
      AllTechNamesConcat(KeepPiece(pieces[0]), KeepTrimmed(pieces[1..]));
    }
  }

  lemma {:induction false} KeepTrimmedConcat(ps: seq<string>, qs: seq<string>)
    ensures KeepTrimmed(ps + qs) == KeepTrimmed(ps) + KeepTrimmed(qs)
    decreases |ps|
  {
    if |ps| == 0 {
      assert ps + qs == qs;
    } else {
      var s := ps + qs;
      assert s[0] == ps[0] && s[1..] == ps[1..] + qs;
      assert KeepTrimmed(s) == KeepPiece(ps[0]) + KeepTrimmed(ps[1..] + qs);
      KeepTrimmedConcat(ps[1..], qs);
      assert KeepTrimmed(ps) == KeepPiece(ps[0]) + KeepTrimmed(ps[1..]);
      ConcatAssoc(KeepPiece(ps[0]), KeepTrimmed(ps[1..]), KeepTrimmed(qs));
    }
  }

  lemma ConcatAssoc(a: seq<string>, b: seq<string>, c: seq<string>)
    ensures a + (b + c) == (a + b) + c
  {
  }

  /** The pieces of a split on `,` hold no comma. */
  lemma SplitPiecesCommaFree(s: string)
    ensures forall k :: 0 <= k < |Split(s, ",")| ==> ',' !in Split(s, ",")[k]
  {
    var ps := Split(s, ",");
    forall k | 0 <= k < |ps|
      ensures ',' !in ps[k]
    {
      NoCharWithout(ps[k], ',');
    }
  }

  /**
   * The technology names of a form entry: the text is split on `,`, each piece is
   * stripped of surrounding whitespace and the empty ones are dropped; an empty
   * entry gives no names.
   */
  function ParseTechnologies(input: string): (names: seq<string>)
    ensures forall k :: 0 <= k < |names| ==> IsTechName(names[k])
    ensures input == "" ==> names == []
  {
    if input == "" then
      []
    else
      SplitPiecesCommaFree(input);
      KeepTrimmedCommaFree(Split(input, ","));
      KeepTrimmed(Split(input, ","))
  }

  /** `', '.join(names)`: the technology list as the edit form shows it. */
  function JoinTechnologies(names: seq<string>): string
  {
    Join(names, ", ")
  }

  /**
   * The guard on the empty entry changes nothing: every entry, the empty one
   * included, yields the kept, stripped pieces of its split on `,`.
   */
  lemma ParseIsPieces(input: string)
    ensures ParseTechnologies(input) == KeepTrimmed(Split(input, ","))
  {
    if input == "" {
      assert IndexOf("", ",") == None;
      assert Split("", ",") == [""];
      assert Trim("") == "";
    }
  }

  /** A comma-free entry yields its stripped text, or nothing when that is empty. */
  lemma ParseSingle(a: string)
    requires ',' !in a
    ensures ParseTechnologies(a) == if Trim(a) == "" then [] else [Trim(a)]
  {
    ParseIsPieces(a);
    assert !Contains(a, ",") by {
      assert Lacks(a, ',');
      LacksExcludes(a, ",", 0);
    }
    assert Split(a, ",") == [a];
  }

  /**
   * Parsing works comma by comma: the names of `a + "," + b` are those of `a`
   * followed by those of `b`, in order.
   */
  lemma ParseConcat(a: string, b: string)
    ensures ParseTechnologies(a + "," + b) == ParseTechnologies(a) + ParseTechnologies(b)
  {
    ParseIsPieces(a + "," + b);
    ParseIsPieces(a);
    ParseIsPieces(b);
    SplitConcatChar(a, b, ',');
    KeepTrimmedConcat(Split(a, ","), Split(b, ","));
  }

  /** Each name after a space. */
  function SpaceEach(names: seq<string>): (r: seq<string>)
    ensures |r| == |names|
  {
    if |names| == 0 then [] else [" " + names[0]] + SpaceEach(names[1..])
  }

  lemma {:induction false} SpaceEachCommaFree(names: seq<string>)
    requires forall k :: 0 <= k < |names| ==> IsTechName(names[k])
    ensures forall k :: 0 <= k < |names| ==> ',' !in SpaceEach(names)[k]
    decreases |names|
  {
    if |names| > 0 {
      SpaceEachCommaFree(names[1..]);
      assert forall k :: 1 <= k < |names| ==> SpaceEach(names)[k] == SpaceEach(names[1..])[k - 1];
    }
  }

  /** `", "`-joined names are the `,`-join of the first name and each other one after a space. */
  lemma {:induction false} JoinSpaced(names: seq<string>)
    requires |names| >= 1
    ensures Join(names, ", ") == Join([names[0]] + SpaceEach(names[1..]), ",")
    decreases |names|
  {
    if |names| > 1 {
      var rest := names[1..];
      JoinSpaced(rest);
      var sp := [names[0]] + SpaceEach(rest);
      assert sp[1..] == SpaceEach(rest) == [" " + rest[0]] + SpaceEach(rest[1..]);
      if |rest| == 1 {
        assert sp[1..] == [" " + rest[0]];
      } else {
        var spr := [rest[0]] + SpaceEach(rest[1..]);
        assert spr[1..] == SpaceEach(rest[1..]);
        assert Join(sp[1..], ",") == " " + rest[0] + "," + Join(SpaceEach(rest[1..]), ",");
        assert Join(spr, ",") == rest[0] + "," + Join(SpaceEach(rest[1..]), ",");
      }
      assert Join(names, ", ") == names[0] + ", " + Join(rest, ", ");
      assert Join(sp, ",") == names[0] + "," + Join(sp[1..], ",");
    }
  }

  /** A name the parser produced comes back unchanged from a leading space. */
  lemma TrimName(n: string, pre: string)
    requires IsTechName(n) && (pre == "" || pre == " ")
    ensures Trim(pre + n) == n
  {
    assert pre + n + [] == pre + n;
    StripUnique(pre, n, [], Whitespace);
  }

  lemma {:induction false} KeepTrimmedSpaced(names: seq<string>)
    requires forall k :: 0 <= k < |names| ==> IsTechName(names[k])
    ensures KeepTrimmed(SpaceEach(names)) == names
    decreases |names|
  {
    if |names| > 0 {
      var first, rest := names[0], names[1..];
      var sp := SpaceEach(names);
      TrimName(first, " ");
      assert sp[0] == " " + first && sp[1..] == SpaceEach(rest);
      assert KeepTrimmed(sp) == KeepPiece(" " + first) + KeepTrimmed(SpaceEach(rest));
      assert KeepPiece(" " + first) == [first];
      KeepTrimmedSpaced(rest);
      HeadTail(names);
    }
  }

  /**
   * The edit form round trip: parsing the `", "`-joined list of names the parser
   * can produce gives back exactly those names, in order.
   */
  lemma JoinParseRoundTrip(names: seq<string>)
    requires forall k :: 0 <= k < |names| ==> IsTechName(names[k])
    ensures ParseTechnologies(JoinTechnologies(names)) == names
  {
    if |names| > 0 {
      ParseIsPieces(JoinTechnologies(names));
      SplitOfJoin(names);
      KeepOfSpaced(names);
    }
  }

  lemma SplitOfJoin(names: seq<string>)
    requires |names| > 0
    requires forall k :: 0 <= k < |names| ==> IsTechName(names[k])
    ensures Split(JoinTechnologies(names), ",") == [names[0]] + SpaceEach(names[1..])
  {
    var rest := SpaceEach(names[1..]);
    var sp := [names[0]] + rest;
    JoinSpaced(names);
    SpaceEachCommaFree(names[1..]);
    assert forall k :: 1 <= k < |sp| ==> sp[k] == rest[k - 1];
    SplitJoinChar(sp, ',');
  }

  lemma KeepOfSpaced(names: seq<string>)
    requires |names| > 0
    requires forall k :: 0 <= k < |names| ==> IsTechName(names[k])
    ensures KeepTrimmed([names[0]] + SpaceEach(names[1..])) == names
  {
    var first, rest := names[0], names[1..];
    TrimParsedName(first);
    KeepTrimmedCons(first, SpaceEach(rest));
    KeepTrimmedSpaced(rest);
    HeadTail(names);
  }

  /** A name the parser produced is its own stripped text. */
  lemma TrimParsedName(n: string)
    requires IsTechName(n)
    ensures Trim(n) == n
  {
    TrimName(n, "");
    assert "" + n == n;
  }

  /** A non-empty sequence is its first element followed by the rest. */
  lemma HeadTail(s: seq<string>)
    requires |s| > 0
    ensures [s[0]] + s[1..] == s
  {
  }

  lemma KeepTrimmedCons(p: string, rest: seq<string>)
    requires Trim(p) != ""
    ensures KeepTrimmed([p] + rest) == [Trim(p)] + KeepTrimmed(rest)
  {
    assert ([p] + rest)[1..] == rest;
  }

  /** Parsing, rendering and parsing again gives what the first parse gave. */
  lemma ParseIdempotent(input: string)
    ensures ParseTechnologies(JoinTechnologies(ParseTechnologies(input))) == ParseTechnologies(input)
  {
    JoinParseRoundTrip(ParseTechnologies(input));
  }

  /** `"Go, Rust"` gives the two names `Go` and `Rust`. */
  lemma ParseExample()
    ensures ParseTechnologies("Go, Rust") == ["Go", "Rust"]
  {
    assert IsTechName("Go") && IsTechName("Rust");
    assert JoinTechnologies(["Go", "Rust"]) == "Go, Rust";
    JoinParseRoundTrip(["Go", "Rust"]);
  }
}
