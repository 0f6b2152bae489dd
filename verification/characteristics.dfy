/**
  The characteristics column of an imported spreadsheet row
  (`import_ste_file` in `main.py`): a string such as
  "Colour: red; Size: M" becomes the dictionary {"Colour": "red", "Size": "M"}.
 */
module Characteristics {
  import opened Common
  import opened Text

  /** A spreadsheet cell after pandas' NaN has been replaced by `None`. */
  datatype Cell = Blank | Str(s: string) | Num(n: int)

  /** One `;`-separated segment: `None` when it has no `:`; otherwise the
      stripped text before the first `:` and the stripped text after it. */
  function ParseSegment(item: string): (r: Option<(string, string)>)
    ensures r.None? <==> ':' !in item
    ensures r.Some? ==> ':' !in r.value.0 && Stripped(r.value.0) && Stripped(r.value.1)
  {
    match IndexOf(item, ':')
    case None => None
    case Some(i) =>
      var k := Strip(item[..i]);
      assert ':' !in k by {
        LStripIsSuffix(item[..i]);
      }
      Some((k, Strip(item[i + 1..])))
  }

  /** A segment whose first `:` is at `i` parses to the stripped text
      before it and the stripped text after it. */
  lemma ParseAtFirstColon(item: string, i: nat)
    requires i < |item| && item[i] == ':' && ':' !in item[..i]
    ensures ParseSegment(item) == Some((Strip(item[..i]), Strip(item[i + 1..])))
  {
    IndexOfFirst(item, ':', i);
  }

  /** Whatever `Strip` keeps is part of its input. */
  lemma LStripIsSuffix(s: string)
    ensures forall c :: c in Strip(s) ==> c in s
  {
    var l := LStrip(s);
    var r := RStrip(l);
    forall c | c in r ensures c in s {
      var j :| 0 <= j < |r| && r[j] == c;
      assert r[j] == l[j];
      assert l[j] == s[|s| - |l| + j];
    }
  }

  /** The values present in a list of optional pairs, in order. */
  function Somes(os: seq<Option<(string, string)>>): (pairs: seq<(string, string)>)
    ensures |pairs| <= |os|
    ensures (forall j :: 0 <= j < |os| ==> os[j].None?) ==> pairs == []
    decreases |os|
  {
    if |os| == 0 then []
    else
      var init := os[..|os| - 1];
      assert forall j :: 0 <= j < |init| ==> init[j] == os[j];
      match os[|os| - 1]
      case None => Somes(init)
      case Some(p) => Somes(init) + [p]
  }

  lemma {:induction false} SomesPresent(os: seq<Option<(string, string)>>)
    ensures forall p :: p in Somes(os) ==> Some(p) in os
    decreases |os|
  {
    if |os| > 0 {
      var n := |os| - 1;
      SomesPresent(os[..n]);
      forall p | p in Somes(os) ensures Some(p) in os {
        if p in Somes(os[..n]) {
          assert Some(p) in os[..n];
        }
      }
    }
  }

  /** `Somes` of a concatenation is the concatenation of the `Somes`. */
  lemma {:induction false} SomesAppend(a: seq<Option<(string, string)>>, b: seq<Option<(string, string)>>)
    ensures Somes(a + b) == Somes(a) + Somes(b)
    decreases |b|
  {
    if |b| == 0 {
      assert a + b == a;
    } else {
      var n := |b| - 1;
      assert (a + b)[..|a + b| - 1] == a + b[..n];
      assert (a + b)[|a + b| - 1] == b[n];
      SomesAppend(a, b[..n]);
    }
  }

  /** Each item parsed as a segment. */
  function ParseEach(items: seq<string>): (os: seq<Option<(string, string)>>)
    ensures |os| == |items|
    ensures forall j :: 0 <= j < |items| ==> os[j] == ParseSegment(items[j])
  {
    seq(|items|, j requires 0 <= j < |items| => ParseSegment(items[j]))
  }

  /** The (key, value) pairs of the segments that contain a `:`, in order. */
  function Parsed(items: seq<string>): (pairs: seq<(string, string)>)
    ensures |pairs| <= |items|
    ensures (forall j :: 0 <= j < |items| ==> ':' !in items[j]) ==> pairs == []
    ensures forall p :: p in pairs ==> ':' !in p.0 && Stripped(p.0) && Stripped(p.1)
  {
    ParsedPairsStripped(items);
    Somes(ParseEach(items))
  }

  /** Parsing is a filter over the segments: the segments parse part by
      part, and one segment yields its pair when it has a `:` and nothing
      otherwise. */
  lemma ParsedIsFilter(a: seq<string>, b: seq<string>)
    ensures Parsed(a + b) == Parsed(a) + Parsed(b)
    ensures |a| == 1 ==> Parsed(a) == match ParseSegment(a[0]) case Some(p) => [p] case None => []
  {
    ParseEachAppend(a, b);
    SomesAppend(ParseEach(a), ParseEach(b));
    if |a| == 1 {
      SomesOne(ParseEach(a));
    }
  }

  lemma ParseEachAppend(a: seq<string>, b: seq<string>)
    ensures ParseEach(a + b) == ParseEach(a) + ParseEach(b)
  {
  }

  lemma SomesOne(os: seq<Option<(string, string)>>)
    requires |os| == 1
    ensures Somes(os) == match os[0] case Some(p) => [p] case None => []
  {
    assert os[..0] == [];
  }

  lemma ParsedPairsStripped(items: seq<string>)
    ensures forall p :: p in Somes(ParseEach(items)) ==> ':' !in p.0 && Stripped(p.0) && Stripped(p.1)
  {
    var os := ParseEach(items);
    SomesPresent(os);
    forall p | p in Somes(os) ensures ':' !in p.0 && Stripped(p.0) && Stripped(p.1) {
      var j :| 0 <= j < |os| && os[j] == Some(p);
      assert ParseSegment(items[j]) == Some(p);
    }
  }

  /** The dictionary the loop builds from the pairs: each pair sets its key,
      overwriting what an earlier pair set. */
  function PairsMap(pairs: seq<(string, string)>): (m: map<string, string>)
    ensures forall k :: k in m ==> (k, m[k]) in pairs
    decreases |pairs|
  {
    if |pairs| == 0 then map[]
    else
      var init := pairs[..|pairs| - 1];
      assert pairs == init + [pairs[|pairs| - 1]];
      PairsMap(init)[pairs[|pairs| - 1].0 := pairs[|pairs| - 1].1]
  }

  /** The keys of the dictionary are exactly the keys of the pairs. */
  lemma {:induction false} PairsMapKeys(pairs: seq<(string, string)>)
    ensures PairsMap(pairs).Keys == set p | p in pairs :: p.0
    decreases |pairs|
  {
    if |pairs| > 0 {
      var n := |pairs| - 1;
      var init := pairs[..n];
      PairsMapKeys(init);
      assert pairs == init + [pairs[n]];
      assert (set p | p in pairs :: p.0) == (set p | p in init :: p.0) + {pairs[n].0};
    }
  }

  /** Each key holds the value of the last pair that names it. */
  lemma {:induction false} PairsMapLastWins(pairs: seq<(string, string)>, j: nat)
    requires j < |pairs| && LastOfKey(pairs, j)
    ensures pairs[j].0 in PairsMap(pairs)
    ensures PairsMap(pairs)[pairs[j].0] == pairs[j].1
    decreases |pairs|
  {
    var n := |pairs| - 1;
    var init := pairs[..n];
    PairsMapSnoc(pairs);
    if j < n {
      assert init[j] == pairs[j];
      assert LastOfKey(init, j) by {
        forall j' | j < j' < |init| ensures init[j'].0 != init[j].0 {
          assert init[j'] == pairs[j'];
        }
      }
      PairsMapLastWins(init, j);
      assert pairs[n].0 != pairs[j].0;
    }
  }

  lemma PairsMapSnoc(pairs: seq<(string, string)>)
    requires |pairs| > 0
    ensures PairsMap(pairs) == PairsMap(pairs[..|pairs| - 1])[pairs[|pairs| - 1].0 := pairs[|pairs| - 1].1]
  {
  }

  /** No pair after the j-th names the j-th pair's key. */
  predicate LastOfKey(pairs: seq<(string, string)>, j: nat)
    requires j < |pairs|
  {
    forall j' :: j < j' < |pairs| ==> pairs[j'].0 != pairs[j].0
  }

  /** The `characteristics` value of an imported row: a string cell is
      split on `;`, every segment with a `:` sets one key, and a later key
      overwrites an earlier one; any other cell gives `{}`. */
  function ParseCharacteristics(raw: Cell): (m: map<string, string>)
    ensures !raw.Str? ==> m == map[]
    ensures raw.Str? && ':' !in raw.s ==> m == map[]
    ensures forall k :: k in m ==> ':' !in k && Stripped(k) && Stripped(m[k])
  {
    match raw
    case Str(s) =>
      var items := Split(s, ';');
      assert ':' !in s ==> forall j :: 0 <= j < |items| ==> ':' !in items[j] by {
        if ':' !in s {
          forall j | 0 <= j < |items| ensures ':' !in items[j] {
            JoinContainsParts(items, ';', j);
          }
        }
      }
      PairsMap(Parsed(items))
    case _ => map[]
  }

  /** Any cell is the join of its `;`-free segments, so this pins down the
      result for every string: the dictionary of the pairs its segments
      parse to, segments without `:` contributing nothing. */
  lemma ParseJoined(segs: seq<string>)
    requires |segs| >= 1
    requires forall j :: 0 <= j < |segs| ==> ';' !in segs[j]
    ensures ParseCharacteristics(Str(Join(segs, ';'))) == PairsMap(Parsed(segs))
  {
    SplitJoin(segs, ';');
  }

  /** A segment without `:` between two "key: value" segments is skipped,
      as in "a: 1;junk; b: 2", which gives {"a": "1", "b": "2"}. */
  lemma JunkSegmentSkipped(k1: string, v1: string, junk: string, k2: string, v2: string)
    requires Renderable(k1, v1) && Renderable(k2, v2)
    requires ':' !in junk && ';' !in junk
    ensures ParseCharacteristics(Str(Segment(k1, v1) + ";" + junk + ";" + Segment(k2, v2))) ==
      map[k1 := v1][k2 := v2]
  {
    var a, b := Segment(k1, v1), Segment(k2, v2);
    JoinThree(a, junk, b, ';');
    assert [';'] == ";";
    SegmentFreeOfSemicolon(k1, v1);
    SegmentFreeOfSemicolon(k2, v2);
    ParseJoined([a, junk, b]);
    SegmentParses(k1, v1);
    SegmentParses(k2, v2);
    ParsedThree(a, junk, b, (k1, v1), (k2, v2));
    PairsMapTwo((k1, v1), (k2, v2));
  }

  lemma JoinThree(x: string, y: string, z: string, sep: char)
    ensures Join([x, y, z], sep) == x + [sep] + y + [sep] + z
  {
    assert [x, y, z][1..] == [y, z];
    assert [y, z][1..] == [z];
    assert Join([y, z], sep) == y + [sep] + z;
    assert x + [sep] + (y + [sep] + z) == x + [sep] + y + [sep] + z;
  }

  lemma ParsedThree(a: string, junk: string, b: string, p1: (string, string), p2: (string, string))
    requires ParseSegment(a) == Some(p1) && ParseSegment(junk).None? && ParseSegment(b) == Some(p2)
    ensures Parsed([a, junk, b]) == [p1, p2]
  {
    var os := ParseEach([a, junk, b]);
    assert os == [Some(p1), None, Some(p2)];
    SomesThree(p1, p2);
  }

  lemma SomesThree(p1: (string, string), p2: (string, string))
    ensures Somes([Some(p1), None, Some(p2)]) == [p1, p2]
  {
    var os := [Some(p1), None, Some(p2)];
    assert os[..2] == [Some(p1), None];
    assert os[..2][..1] == [Some(p1)];
    assert os[..2][..1][..0] == [];
    assert Somes([Some(p1)]) == [p1];
    assert Somes([Some(p1), None]) == [p1];
  }

  lemma PairsMapTwo(p1: (string, string), p2: (string, string))
    ensures PairsMap([p1, p2]) == map[p1.0 := p1.1][p2.0 := p2.1]
  {
    var pairs := [p1, p2];
    PairsMapSnoc(pairs);
    PairsMapSnoc(pairs[..1]);
    assert pairs[..1][..0] == [];
  }

  /** Every part of a join appears in it, character by character. */
  lemma {:induction false} JoinContainsParts(parts: seq<string>, sep: char, j: nat)
    requires j < |parts|
    ensures forall c :: c in parts[j] ==> c in Join(parts, sep)
    decreases |parts|
  {
    if |parts| > 1 {
      var rest := Join(parts[1..], sep);
      assert Join(parts, sep) == parts[0] + [sep] + rest;
      if j > 0 {
        JoinContainsParts(parts[1..], sep, j - 1);
      }
    }
  }

  // ---------------------------------------------------------------------
  // Rendering and the round trip
  // ---------------------------------------------------------------------

  /** A key and value that survive a render-and-parse: no outer whitespace,
      no `;`, and no `:` in the key. */
  predicate Renderable(k: string, v: string) {
    Stripped(k) && Stripped(v) && ';' !in k && ';' !in v && ':' !in k
  }

  /** "key: value" with a space in front, as a spreadsheet would hold it. */
  function Segment(k: string, v: string): string {
    " " + k + ": " + v
  }

  function Segments(pairs: seq<(string, string)>): (segs: seq<string>)
    ensures |segs| == |pairs|
    ensures forall j :: 0 <= j < |pairs| ==> segs[j] == Segment(pairs[j].0, pairs[j].1)
  {
    seq(|pairs|, j requires 0 <= j < |pairs| => Segment(pairs[j].0, pairs[j].1))
  }

  /** The pairs as a characteristics string: segments joined by `;`. */
  function Render(pairs: seq<(string, string)>): string {
    Join(Segments(pairs), ';')
  }

  lemma SegmentParses(k: string, v: string)
    requires Renderable(k, v)
    ensures ParseSegment(Segment(k, v)) == Some((k, v))
  {
    var s := Segment(k, v);
    assert s == " " + k + [':'] + " " + v;
    assert s[..|k| + 1] == " " + k;
    assert ':' !in s[..|k| + 1];
    IndexOfFirst(s, ':', |k| + 1);
    assert s[|k| + 2..] == " " + v;
    StripSpacesThenStripped(" ", k);
    StripSpacesThenStripped(" ", v);
  }

  /** Options that are all present give back their values. */
  lemma {:induction false} SomesAll(os: seq<Option<(string, string)>>, pairs: seq<(string, string)>)
    requires |os| == |pairs|
    requires forall j :: 0 <= j < |os| ==> os[j] == Some(pairs[j])
    ensures Somes(os) == pairs
    decreases |os|
  {
    if |os| > 0 {
      var n := |os| - 1;
      assert Somes(os) == Somes(os[..n]) + [pairs[n]];
      SomesAll(os[..n], pairs[..n]);
      assert pairs == pairs[..n] + [pairs[n]];
    }
  }

  lemma ParsedSegments(pairs: seq<(string, string)>)
    requires forall j :: 0 <= j < |pairs| ==> Renderable(pairs[j].0, pairs[j].1)
    ensures Parsed(Segments(pairs)) == pairs
  {
    var segs := Segments(pairs);
    var os := ParseEach(segs);
    forall j | 0 <= j < |segs| ensures os[j] == Some(pairs[j]) {
      SegmentParses(pairs[j].0, pairs[j].1);
    }
    SomesAll(os, pairs);
  }

  lemma SegmentFreeOfSemicolon(k: string, v: string)
    requires ';' !in k && ';' !in v
    ensures ';' !in Segment(k, v)
  {
    var s := Segment(k, v);
    assert s == " " + k + ": " + v;
    forall c | c in s ensures c != ';' {
      var i :| 0 <= i < |s| && s[i] == c;
      if i == 0 {
      } else if i <= |k| {
        assert s[i] == k[i - 1];
      } else if i <= |k| + 2 {
      } else {
        assert s[i] == v[i - |k| - 3];
      }
    }
  }

  /** No pairs render as the empty string, which parses to `{}`. */
  lemma EmptyCellParses(pairs: seq<(string, string)>)
    requires |pairs| == 0
    ensures ParseCharacteristics(Str(Render(pairs))) == map[] == PairsMap(pairs)
  {
    var items := Split(Render(pairs), ';');
    assert items == [""];
    assert ParseSegment(items[0]).None?;
    assert ParseEach(items) == [None];
  }

  /** Parsing a rendered list of pairs gives the dictionary of the pairs. */
  lemma RenderParse(pairs: seq<(string, string)>)
    requires forall j :: 0 <= j < |pairs| ==> Renderable(pairs[j].0, pairs[j].1)
    ensures ParseCharacteristics(Str(Render(pairs))) == PairsMap(pairs)
  {
    var s := Render(pairs);
    var segs := Segments(pairs);
    if |pairs| == 0 {
      EmptyCellParses(pairs);
    } else {
      forall j | 0 <= j < |segs| ensures ';' !in segs[j] {
        SegmentFreeOfSemicolon(pairs[j].0, pairs[j].1);
      }
      SplitJoin(segs, ';');
      ParsedSegments(pairs);
    }
  }
}
