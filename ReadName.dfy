/** Read names such as `K00252:335:HWMMGBBXX:2:1101:3204:2545` and the way the
    trie cuts them into segments: Java's `name.split(":")`. */
module ReadName {
  import opened JavaSplit

  predicate NotColon(c: char) { c != ':' }

  predicate ColonFree(segs: seq<string>) {
    forall i :: 0 <= i < |segs| ==> ':' !in segs[i]
  }

  /** Every field between colons, the empty ones included (split with a
      negative limit). */
  function Fields(s: string): (r: seq<string>)
    ensures |r| >= 1
    ensures ColonFree(r)
    decreases |s|
  {
    var n := Span(s, NotColon);
    if n == |s| then [s] else [s[..n]] + Fields(s[n + 1..])
  }

  /** `name.split(":")`: a name without a colon is its own single segment (so
      "" gives [""]); otherwise the fields, less the empty ones at the end
      (so "a:b:" gives ["a", "b"] and ":" gives []). */
  function Split(name: string): (r: seq<string>)
    ensures ColonFree(r)
    ensures ':' !in name ==> r == [name]
    ensures ':' in name ==> r == [] || r[|r| - 1] != ""
  {
    if ':' !in name then [name] else DropTrailingEmpty(Fields(name))
  }

  /** The inverse direction: segments glued back with ':'. */
  function Join(segs: seq<string>): string
  {
    if segs == [] then ""
    else if |segs| == 1 then segs[0]
    else segs[0] + ":" + Join(segs[1..])
  }

  function TrimTrailingColons(s: string): (r: string)
    ensures r <= s
    ensures r == [] || r[|r| - 1] != ':'
    ensures forall j :: |r| <= j < |s| ==> s[j] == ':'
  {
    if s != [] && s[|s| - 1] == ':' then TrimTrailingColons(s[..|s| - 1]) else s
  }

  lemma {:induction false} JoinFields(s: string)
    ensures Join(Fields(s)) == s
    decreases |s|
  {
    var n := Span(s, NotColon);
    if n < |s| {
      var tail := s[n + 1..];
      FieldsStep(s, n);
      JoinFields(tail);
      JoinCons(s[..n], Fields(tail));
      CutAt(s, n);
    }
  }

  /** One step of `Fields`: the field before the first colon, then the rest. */
  lemma FieldsStep(s: string, n: nat)
    requires n == Span(s, NotColon) < |s|
    ensures Fields(s) == [s[..n]] + Fields(s[n + 1..])
  {
  }

  lemma CutAt(s: string, n: nat)
    requires n < |s| && s[n] == ':'
    ensures s == s[..n] + ":" + s[n + 1..]
  {
  }

  lemma JoinCons(head: string, rest: seq<string>)
    requires |rest| >= 1
    ensures Join([head] + rest) == head + ":" + Join(rest)
  {
    assert ([head] + rest)[1..] == rest;
  }

  lemma {:induction false} FieldsJoin(segs: seq<string>)
    requires |segs| >= 1 && ColonFree(segs)
    ensures Fields(Join(segs)) == segs
  {
    var s := Join(segs);
    if |segs| == 1 {
      SpanIs(s, NotColon, |s|);
    } else {
      var rest := Join(segs[1..]);
      assert s == segs[0] + ":" + rest;
      SpanIs(s, NotColon, |segs[0]|);
      assert s[..|segs[0]|] == segs[0];
      assert s[|segs[0]| + 1..] == rest;
      FieldsJoin(segs[1..]);
    }
  }

  lemma {:induction false} JoinSnoc(segs: seq<string>, last: string)
    requires |segs| >= 1
    ensures Join(segs + [last]) == Join(segs) + ":" + last
  {
    if |segs| > 1 {
      assert (segs + [last])[1..] == segs[1..] + [last];
      JoinSnoc(segs[1..], last);
    }
  }

  /** Dropping empty fields at the end is trimming colons at the end. */
  lemma {:induction false} JoinDropTrailingEmpty(xs: seq<string>)
    requires |xs| >= 1 && ColonFree(xs)
    ensures Join(DropTrailingEmpty(xs)) == TrimTrailingColons(Join(xs))
    decreases |xs|
  {
    var last := xs[|xs| - 1];
    if last == "" {
      if |xs| == 1 {
        assert Join(xs) == "";
      } else {
        var init := xs[..|xs| - 1];
        assert xs == init + [last];
        JoinSnoc(init, last);
        assert Join(xs) == Join(init) + ":";
        assert (Join(init) + ":")[..|Join(init) + ":"| - 1] == Join(init);
        JoinDropTrailingEmpty(init);
      }
    } else if |xs| > 1 {
      var init := xs[..|xs| - 1];
      assert xs == init + [last];
      JoinSnoc(init, last);
      assert ':' !in last;
      assert Join(xs)[|Join(xs)| - 1] == last[|last| - 1];
    }
  }

  /** Segments glued back together give the name with its trailing colons
      removed: split loses exactly the trailing colons. */
  lemma JoinSplit(name: string)
    ensures Join(Split(name)) == TrimTrailingColons(name)
  {
    if ':' in name {
      JoinFields(name);
      JoinDropTrailingEmpty(Fields(name));
    } else if name != [] {
      assert name[|name| - 1] != ':';
    }
  }

  /** Colon-free segments whose last one is non-empty (or a single segment)
      come back unchanged from a join followed by a split. */
  lemma SplitJoin(segs: seq<string>)
    requires |segs| >= 1 && ColonFree(segs)
    requires |segs| == 1 || segs[|segs| - 1] != ""
    ensures Split(Join(segs)) == segs
  {
    var s := Join(segs);
    if |segs| == 1 {
      assert s == segs[0];
    } else {
      assert s == segs[0] + ":" + Join(segs[1..]);
      assert s[|segs[0]|] == ':';
      FieldsJoin(segs);
      DropTrailingEmptyKeeps(segs);
    }
  }

  /** `split(":")` on the shapes it treats specially: trailing empty fields
      go, a lone colon leaves nothing, a name without colons stays whole. */
  lemma SplitExamples()
    ensures Split("a:b:") == ["a", "b"]
    ensures Split(":") == []
    ensures Split("") == [""]
  {
    assert Span(":", NotColon) == 0;
    assert Span("a:b:", NotColon) == 1 by { SpanIs("a:b:", NotColon, 1); }
    assert Span("b:", NotColon) == 1 by { SpanIs("b:", NotColon, 1); }
    assert "a:b:"[2..] == "b:" && "b:"[2..] == "" && "a:b:"[..1] == "a" && "b:"[..1] == "b";
    FieldsStep("a:b:", 1);
    FieldsStep("b:", 1);
    assert Fields("a:b:") == ["a", "b", ""];
    assert ["a", "b", ""][..2] == ["a", "b"];
  }
}
