/** The fixed vocabulary of the game: the six-colour palette, the code length,
    the attempt limit, and the CSS-class strings that the board stores in
    the slots of the current guess ("bg-<colour>-500", or "" for an empty slot). */
module Board {

  datatype Color = Red | Blue | Green | Yellow | Purple | Orange

  /** The palette, in the order the colour picker shows it. */
  const COLORS: seq<Color> := [Red, Blue, Green, Yellow, Purple, Orange]

  const CODE_LENGTH: nat := 4
  const MAX_ATTEMPTS: nat := 10

  /** The marker of an empty slot in the current guess. */
  const EMPTY: string := ""

  /** The colour's name, as the palette spells it. */
  function Name(c: Color): string
  {
    match c
    case Red => "red"
    case Blue => "blue"
    case Green => "green"
    case Yellow => "yellow"
    case Purple => "purple"
    case Orange => "orange"
  }

  /** The palette lists every colour exactly once, and its names are
      pairwise distinct and free of '-'. */
  lemma PaletteComplete(c: Color, d: Color)
    ensures |COLORS| == 6 && c in COLORS
    ensures forall i, j :: 0 <= i < j < |COLORS| ==> COLORS[i] != COLORS[j]
    ensures Name(c) == Name(d) ==> c == d
    ensures Name(c) != EMPTY && '-' !in Name(c)
  {
  }

  /** The string written into a slot when colour c is picked; it never reads
      as an empty slot. */
  function Slot(c: Color): (s: string)
    ensures s != EMPTY
  {
    "bg-" + Name(c) + "-500"
  }

  /** A well-formed slot of the current guess: empty, or a picked colour. */
  ghost predicate IsSlot(s: string)
  {
    s == EMPTY || exists c: Color :: s == Slot(c)
  }

  /** JavaScript's `s.replace(pat, rep)` with a string pattern and a
      replacement free of '$' (such as the '' the scorer passes): only the
      leftmost occurrence of pat is replaced; without one, s is returned.
      The `$$`, `$&`, `$`` and `$'` substitutions of a replacement are not
      modelled: rep is inserted as it stands. */
  function ReplaceFirst(s: string, pat: string, rep: string): string
    decreases |s|
  {
    if |s| < |pat| then s
    else if s[..|pat|] == pat then rep + s[|pat|..]
    else [s[0]] + ReplaceFirst(s[1..], pat, rep)
  }

  /** pat occurs in s starting at position k. */
  predicate OccursAt(s: string, pat: string, k: nat)
  {
    k + |pat| <= |s| && s[k..k + |pat|] == pat
  }

  /** Dropping the first character shifts every occurrence one place left. */
  lemma OccursShift(s: string, pat: string, j: nat)
    requires |s| > 0
    ensures OccursAt(s[1..], pat, j) <==> OccursAt(s, pat, j + 1)
  {
  }

  /** With a leftmost occurrence of pat at k, only that occurrence is replaced. */
  lemma {:induction false} ReplaceFirstLeftmost(s: string, pat: string, rep: string, k: nat)
    requires OccursAt(s, pat, k)
    requires forall j: nat :: j < k ==> !OccursAt(s, pat, j)
    ensures ReplaceFirst(s, pat, rep) == s[..k] + rep + s[k + |pat|..]
    decreases k
  {
    if k > 0 {
      assert !OccursAt(s, pat, 0);
      forall j: nat | j < k - 1
        ensures !OccursAt(s[1..], pat, j)
      {
        OccursShift(s, pat, j);
      }
      OccursShift(s, pat, k - 1);
      ReplaceFirstLeftmost(s[1..], pat, rep, k - 1);
      var t := s[1..];
      assert s[..|pat|] != pat;
      calc {
        ReplaceFirst(s, pat, rep);
        [s[0]] + ReplaceFirst(t, pat, rep);
        [s[0]] + (t[..k - 1] + rep + t[k - 1 + |pat|..]);
        { assert [s[0]] + t[..k - 1] == s[..k];
          assert t[k - 1 + |pat|..] == s[k + |pat|..]; }
        s[..k] + rep + s[k + |pat|..];
      }
    }
  }

  /** Without an occurrence of pat, s is returned unchanged. */
  lemma {:induction false} ReplaceFirstAbsent(s: string, pat: string, rep: string)
    requires forall j: nat :: !OccursAt(s, pat, j)
    ensures ReplaceFirst(s, pat, rep) == s
    decreases |s|
  {
    if |s| >= |pat| {
      assert !OccursAt(s, pat, 0);
      forall j: nat
        ensures !OccursAt(s[1..], pat, j)
      {
        OccursShift(s, pat, j);
      }
      ReplaceFirstAbsent(s[1..], pat, rep);
      assert [s[0]] + s[1..] == s;
    }
  }

  /** The colour name recovered from a slot, by deleting "bg-" and then "-500". */
  function StripSlot(s: string): string
  {
    ReplaceFirst(ReplaceFirst(s, "bg-", ""), "-500", "")
  }

  lemma ReplaceFirstAtFront(pat: string, t: string, rep: string)
    ensures ReplaceFirst(pat + t, pat, rep) == rep + t
  {
  }

  /** In a word without '-', the first "-500" of w + "-500" is the appended one. */
  lemma {:induction false} ReplaceFirstSuffix(w: string)
    requires '-' !in w
    ensures ReplaceFirst(w + "-500", "-500", "") == w
  {
    var s := w + "-500";
    if w == [] {
      assert s == "-500";
    } else {
      assert s[0] == w[0] != '-';
      assert s[..4] != "-500" by { assert s[..4][0] == s[0]; }
      assert s[1..] == w[1..] + "-500";
      ReplaceFirstSuffix(w[1..]);
      assert [w[0]] + w[1..] == w;
    }
  }

  /** Stripping a slot gives back the name of the colour that filled it. */
  lemma StripSlotRoundTrip(c: Color)
    ensures StripSlot(Slot(c)) == Name(c)
    ensures StripSlot(Slot(c)) != StripSlot(EMPTY)
  {
    assert Slot(c) == "bg-" + (Name(c) + "-500");
    ReplaceFirstAtFront("bg-", Name(c) + "-500", "");
    assert "" + (Name(c) + "-500") == Name(c) + "-500";
    PaletteComplete(c, c);
    ReplaceFirstSuffix(Name(c));
    assert StripSlot(Slot(c)) == ReplaceFirst(Name(c) + "-500", "-500", "");
  }
}
