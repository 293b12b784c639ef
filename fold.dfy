/** The shape of `processTimetable`'s `forEach`: a fold over the lines of
    a text that carries a sticky context (the day in effect). A line may
    set a new context through `heading`, and contributes `entries` under
    the context in effect after it. The two are parameters so that what is
    proved here about the fold holds whatever a line's scanners find. */
module LineFold {
  import opened Text

  /** The context in effect after `lines` when `day` was in effect before
      them: the context set by the last line that sets one, or `day`. */
  function Latest<D>(day: D, lines: seq<string>, heading: string -> Option<D>): D
    decreases |lines|
  {
    if lines == [] then day
    else
      match heading(lines[|lines| - 1])
      case Some(h) => h
      case None => Latest(day, lines[..|lines| - 1], heading)
  }

  /** The entries of `lines` with `day` in effect before them: line by
      line, each line's entries under the context in effect after it, so a
      line that sets a context is itself read under it. */
  function Collect<D, E>(day: D, lines: seq<string>, heading: string -> Option<D>,
                         entries: (D, string) -> seq<E>): seq<E>
    decreases |lines|
  {
    if lines == [] then []
    else
      Collect(day, lines[..|lines| - 1], heading, entries)
        + entries(Latest(day, lines, heading), lines[|lines| - 1])
  }

  /** One more line: the context it sets, if any, takes effect, and its
      entries follow those of the lines before it. */
  lemma Step<D, E>(day: D, lines: seq<string>, i: nat, heading: string -> Option<D>,
                   entries: (D, string) -> seq<E>)
    requires i < |lines|
    ensures Latest(day, lines[..i + 1], heading) ==
              match heading(lines[i]) case Some(h) => h case None => Latest(day, lines[..i], heading)
    ensures Collect(day, lines[..i + 1], heading, entries) ==
              Collect(day, lines[..i], heading, entries) + entries(Latest(day, lines[..i + 1], heading), lines[i])
  {
    var p := lines[..i + 1];
    assert p[..i] == lines[..i] && p[i] == lines[i];
  }

  /** Folding over `a + b` is folding over `a` and then over `b` from the
      context in effect after `a`: entries keep line order, and a context
      stays in effect for later lines until a line sets another. */
  lemma {:induction false} Append<D, E>(day: D, a: seq<string>, b: seq<string>, heading: string -> Option<D>,
                                        entries: (D, string) -> seq<E>)
    ensures Latest(day, a + b, heading) == Latest(Latest(day, a, heading), b, heading)
    ensures Collect(day, a + b, heading, entries) ==
              Collect(day, a, heading, entries) + Collect(Latest(day, a, heading), b, heading, entries)
    decreases |b|
  {
    if b == [] {
      assert a + b == a;
    } else {
      var b' := b[..|b| - 1];
      var x := b[|b| - 1];
      var ab := a + b;
      assert ab[..|ab| - 1] == a + b' && ab[|ab| - 1] == x;
      Append(day, a, b', heading, entries);
      var d := Latest(day, a, heading);
      assert Latest(day, ab, heading) == Latest(d, b, heading);
      var e := entries(Latest(d, b, heading), x);
      calc {
        Collect(day, ab, heading, entries);
        Collect(day, a + b', heading, entries) + e;
        (Collect(day, a, heading, entries) + Collect(d, b', heading, entries)) + e;
        Collect(day, a, heading, entries) + (Collect(d, b', heading, entries) + e);
        Collect(day, a, heading, entries) + Collect(d, b, heading, entries);
      }
    }
  }

  /** A line that sets no context and has no entries under any context
      changes nothing. */
  lemma Inert<D, E>(day: D, a: seq<string>, line: string, b: seq<string>, heading: string -> Option<D>,
                    entries: (D, string) -> seq<E>)
    requires heading(line).None? && forall d :: entries(d, line) == []
    ensures Latest(day, a + [line] + b, heading) == Latest(day, a + b, heading)
    ensures Collect(day, a + [line] + b, heading, entries) == Collect(day, a + b, heading, entries)
  {
    Append(day, a + [line], b, heading, entries);
    Append(day, a, [line], heading, entries);
    Append(day, a, b, heading, entries);
    assert [line][..0] == [];
    assert Collect(Latest(day, a, heading), [line], heading, entries) == [];
  }

  /** A line that sets context `h`: it and every later line are read from
      `h`, whatever was in effect before; earlier lines are untouched. */
  lemma Sets<D, E>(day: D, a: seq<string>, line: string, b: seq<string>, h: D, heading: string -> Option<D>,
                   entries: (D, string) -> seq<E>)
    requires heading(line) == Some(h)
    ensures Collect(day, a + [line] + b, heading, entries) ==
              Collect(day, a, heading, entries) + entries(h, line) + Collect(h, b, heading, entries)
    ensures Latest(day, a + [line] + b, heading) == Latest(h, b, heading)
  {
    Append(day, a + [line], b, heading, entries);
    Append(day, a, [line], heading, entries);
    assert [line][..0] == [];
    assert Latest(Latest(day, a, heading), [line], heading) == h;
    assert Collect(Latest(day, a, heading), [line], heading, entries) == entries(h, line);
  }

  /** The context in effect is the starting one or one some line set. */
  lemma {:induction false} LatestFrom<D>(day: D, lines: seq<string>, heading: string -> Option<D>)
    ensures Latest(day, lines, heading) == day ||
            exists i :: 0 <= i < |lines| && heading(lines[i]) == Some(Latest(day, lines, heading))
    decreases |lines|
  {
    if lines != [] {
      var n := |lines| - 1;
      if heading(lines[n]).None? {
        var init := lines[..n];
        LatestFrom(day, init, heading);
        if Latest(day, init, heading) != day {
          var i :| 0 <= i < |init| && heading(init[i]) == Some(Latest(day, init, heading));
          assert lines[i] == init[i];
        }
      }
    }
  }

  /** Every entry is one of some line's entries under the context in
      effect after that line. */
  lemma {:induction false} CollectFrom<D, E>(day: D, lines: seq<string>, heading: string -> Option<D>,
                                             entries: (D, string) -> seq<E>, e: E)
    requires e in Collect(day, lines, heading, entries)
    ensures exists i :: 0 <= i < |lines| && e in entries(Latest(day, lines[..i + 1], heading), lines[i])
    decreases |lines|
  {
    var n := |lines| - 1;
    var init := lines[..n];
    assert lines[..n + 1] == lines;
    if e !in entries(Latest(day, lines, heading), lines[n]) {
      CollectFrom(day, init, heading, entries, e);
      var i :| 0 <= i < |init| && e in entries(Latest(day, init[..i + 1], heading), init[i]);
      assert init[..i + 1] == lines[..i + 1] && init[i] == lines[i];
    }
  }
}
