/**
 * What the extractor returns for a text holding a well-formed claim-form line,
 * `Bank Name: <value>⏎`, `Account No.: <value>⏎` or `Phone: <value>⏎`, where no
 * earlier match of the same pattern starts before the line's label.
 *
 * Each `*TailMatch` lemma names the match of a pattern's tail that the
 * backtracking engine reports right after the label; each `*Line` lemma then
 * turns it, through `Regex.LabelledCapture`, into the extracted field.
 */
module ExtractionLines {
  import opened Wrappers
  import opened Text
  import opened Regex
  import opened Extraction

  // ---------------------------------------------------------------------------
  // The pieces of the two tails

  const ColonOnce := Piece(Colon, Once, false)
  const Spaces := Piece(Space, AtLeast(0, true), false)
  const LazyLine := Piece(NotNewline, AtLeast(1, false), true)
  const Newline := Piece(Exactly('\n'), Once, false)

  function ValueRun(cls: CharClass): Piece {
    Piece(cls, AtLeast(1, true), true)
  }

  /**
   * The run of `cls` characters at the start of `t` holds no newline. A greedy
   * value run that can take newlines, once past a value's own newline, then has
   * no later newline to end at.
   */
  predicate RunWithoutNewline(t: string, cls: CharClass) {
    t == [] || !InClass(cls, t[0]) || (t[0] != '\n' && RunWithoutNewline(t[1..], cls))
  }

  /** `RunWithoutNewline` holds exactly when no newline is reached by `cls` characters alone. */
  lemma RunWithoutNewlineMeans(t: string, cls: CharClass)
    ensures RunWithoutNewline(t, cls) <==>
      forall k :: 0 <= k < |t| && (forall j :: 0 <= j <= k ==> InClass(cls, t[j])) ==> t[k] != '\n'
  {
    if RunWithoutNewline(t, cls) {
      forall k | 0 <= k < |t| && (forall j :: 0 <= j <= k ==> InClass(cls, t[j])) ensures t[k] != '\n' {
        RunWithoutNewlineAt(t, cls, k);
      }
    }
    if forall k :: 0 <= k < |t| && (forall j :: 0 <= j <= k ==> InClass(cls, t[j])) ==> t[k] != '\n' {
      RunWithoutNewlineIntro(t, cls);
    }
  }

  lemma {:induction false} RunWithoutNewlineAt(t: string, cls: CharClass, k: nat)
    requires RunWithoutNewline(t, cls) && k < |t|
    requires forall j :: 0 <= j <= k ==> InClass(cls, t[j])
    ensures t[k] != '\n'
  {
    assert InClass(cls, t[0]);
    if k > 0 {
      forall j | 0 <= j <= k - 1 ensures InClass(cls, t[1..][j]) {
        assert t[1..][j] == t[j + 1];
      }
      RunWithoutNewlineAt(t[1..], cls, k - 1);
      assert t[1..][k - 1] == t[k];
    }
  }

  lemma {:induction false} RunWithoutNewlineIntro(t: string, cls: CharClass)
    requires forall k :: 0 <= k < |t| && (forall j :: 0 <= j <= k ==> InClass(cls, t[j])) ==> t[k] != '\n'
    ensures RunWithoutNewline(t, cls)
  {
    if t != [] && InClass(cls, t[0]) {
      assert forall j :: 0 <= j <= 0 ==> InClass(cls, t[j]);
      forall k | 0 <= k < |t[1..]| && (forall j :: 0 <= j <= k ==> InClass(cls, t[1..][j]))
        ensures t[1..][k] != '\n'
      {
        forall j | 0 <= j <= k + 1 ensures InClass(cls, t[j]) {
          if j > 0 {
            assert t[j] == t[1..][j - 1];
          }
        }
        assert t[1..][k] == t[k + 1];
      }
      RunWithoutNewlineIntro(t[1..], cls);
    }
  }

  lemma BankNameTailPieces()
    ensures BankNameTail == [ColonOnce] + ([Spaces] + ([LazyLine] + [Newline]))
  {
  }

  lemma KeyValueTailPieces(cls: CharClass)
    ensures KeyValueTail(cls) == [Spaces] + ([ColonOnce] + ([Spaces] + ([ValueRun(cls)] + [Newline])))
  {
  }

  lemma Counts4(a: nat, b: nat, c: nat, d: nat)
    ensures [a, b, c, d] == [a] + ([b] + ([c] + [d]))
  {
  }

  lemma Counts5(a: nat, b: nat, c: nat, d: nat, e: nat)
    ensures [a, b, c, d, e] == [a] + ([b] + ([c] + ([d] + [e])))
  {
  }

  lemma NewlineFits(s: string, e: nat)
    requires e < |s| && s[e] == '\n'
    ensures Fits(s, e, [Newline], [1])
  {
    assert Fits(s, e + 1, [], []);
    FitsIntro(s, e, Newline, [], 1, []);
    assert [Newline] + [] == [Newline] && [1] + [] == [1];
  }

  // ---------------------------------------------------------------------------
  // `[:：]\s*(.+?)\n`

  /**
   * After `Bank Name`: a colon at `q`, `n` spaces, then `nv` characters up to a
   * newline, the first of them not a space. The engine takes all `n` spaces
   * (greedy `\s*`) and the value up to the first newline (lazy `.+?`).
   */
  lemma BankNameTailMatch(s: string, q: nat, n: nat, nv: nat)
    requires q + 1 + n + nv + 1 <= |s|
    requires InClass(Colon, s[q])
    requires forall k :: q + 1 <= k < q + 1 + n ==> IsSpace(s[k])
    requires nv > 0 && !IsSpace(s[q + 1 + n])
    requires forall k :: q + 1 + n <= k < q + 1 + n + nv ==> s[k] != '\n'
    requires s[q + 1 + n + nv] == '\n'
    ensures Fits(s, q, BankNameTail, [1, n, nv, 1])
    ensures forall fs :: Fits(s, q, BankNameTail, fs) ==>
      fs == [1, n, nv, 1] || Prefers(BankNameTail, [1, n, nv, 1], fs)
    ensures GroupText(s, q, BankNameTail, [1, n, nv, 1]) == s[q + 1 + n..q + 1 + n + nv]
  {
    BankNameTailFits(s, q, n, nv);
    forall fs | Fits(s, q, BankNameTail, fs)
      ensures fs == [1, n, nv, 1] || Prefers(BankNameTail, [1, n, nv, 1], fs)
    {
      BankNameTailChoice(s, q, n, nv, fs);
    }
    BankNameTailGroup(s, q, n, nv);
  }

  lemma BankNameTailFits(s: string, q: nat, n: nat, nv: nat)
    requires q + 1 + n + nv + 1 <= |s|
    requires InClass(Colon, s[q])
    requires forall k :: q + 1 <= k < q + 1 + n ==> IsSpace(s[k])
    requires nv > 0
    requires forall k :: q + 1 + n <= k < q + 1 + n + nv ==> s[k] != '\n'
    requires s[q + 1 + n + nv] == '\n'
    ensures Fits(s, q, BankNameTail, [1, n, nv, 1])
  {
    BankSpacesFits(s, q + 1, n, nv);
    FitsIntro(s, q, ColonOnce, [Spaces] + ([LazyLine] + [Newline]), 1, [n] + ([nv] + [1]));
    BankNameTailPieces();
    Counts4(1, n, nv, 1);
  }

  lemma BankSpacesFits(s: string, p: nat, n: nat, nv: nat)
    requires p + n + nv < |s|
    requires forall k :: p <= k < p + n ==> IsSpace(s[k])
    requires nv > 0
    requires forall k :: p + n <= k < p + n + nv ==> s[k] != '\n'
    requires s[p + n + nv] == '\n'
    ensures Fits(s, p, [Spaces] + ([LazyLine] + [Newline]), [n] + ([nv] + [1]))
  {
    LazyLineFits(s, p + n, nv);
    FitsIntro(s, p, Spaces, [LazyLine] + [Newline], n, [nv] + [1]);
  }

  lemma LazyLineFits(s: string, r: nat, nv: nat)
    requires r + nv < |s| && nv > 0
    requires forall k :: r <= k < r + nv ==> s[k] != '\n'
    requires s[r + nv] == '\n'
    ensures Fits(s, r, [LazyLine] + [Newline], [nv] + [1])
  {
    NewlineFits(s, r + nv);
    FitsIntro(s, r, LazyLine, [Newline], nv, [1]);
  }

  lemma BankNameTailChoice(s: string, q: nat, n: nat, nv: nat, fs: seq<nat>)
    requires q + 1 + n + nv + 1 <= |s|
    requires forall k :: q + 1 <= k < q + 1 + n ==> IsSpace(s[k])
    requires !IsSpace(s[q + 1 + n])
    requires forall k :: q + 1 + n <= k < q + 1 + n + nv ==> s[k] != '\n'
    requires s[q + 1 + n + nv] == '\n'
    requires Fits(s, q, BankNameTail, fs)
    ensures fs == [1, n, nv, 1] || Prefers(BankNameTail, [1, n, nv, 1], fs)
  {
    BankNameTailPieces();
    Counts4(1, n, nv, 1);
    var rest := [Spaces] + ([LazyLine] + [Newline]);
    FitsCons(s, q, ColonOnce, rest, fs);
    BankSpacesChoice(s, q + 1, n, nv, fs[1..]);
    if fs[1..] != [n] + ([nv] + [1]) {
      PrefersLater(ColonOnce, rest, 1, [n] + ([nv] + [1]), fs[1..]);
    }
  }

  /** The greedy `\s*` takes all `n` spaces, or the match is less preferred. */
  lemma BankSpacesChoice(s: string, p: nat, n: nat, nv: nat, gs: seq<nat>)
    requires p + n + nv < |s|
    requires forall k :: p <= k < p + n ==> IsSpace(s[k])
    requires !IsSpace(s[p + n])
    requires forall k :: p + n <= k < p + n + nv ==> s[k] != '\n'
    requires s[p + n + nv] == '\n'
    requires Fits(s, p, [Spaces] + ([LazyLine] + [Newline]), gs)
    ensures gs == [n] + ([nv] + [1]) || Prefers([Spaces] + ([LazyLine] + [Newline]), [n] + ([nv] + [1]), gs)
  {
    FitsCons(s, p, Spaces, [LazyLine] + [Newline], gs);
    var g := gs[0];
    assert g <= n by {
      assert !IsSpace(s[p + n]);
    }
    if g < n {
      PrefersHere(Spaces, [LazyLine] + [Newline], n, [nv] + [1], g, gs[1..]);
    } else {
      LazyLineChoice(s, p + n, nv, gs[1..]);
    }
  }

  /** The lazy `.+?` followed by a newline can only stop at the first newline. */
  lemma LazyLineChoice(s: string, r: nat, nv: nat, gs: seq<nat>)
    requires r + nv < |s|
    requires forall k :: r <= k < r + nv ==> s[k] != '\n'
    requires s[r + nv] == '\n'
    requires Fits(s, r, [LazyLine] + [Newline], gs)
    ensures gs == [nv] + [1]
  {
    FitsCons(s, r, LazyLine, [Newline], gs);
    var g := gs[0];
    FitsCons(s, r + g, Newline, [], gs[1..]);
    assert s[r + g] == '\n';
    assert g <= nv by {
      assert s[r + nv] == '\n';
    }
    assert g == nv;
    assert gs[1..] == [1];
  }

  lemma BankNameTailGroup(s: string, q: nat, n: nat, nv: nat)
    requires q + 1 + n + nv <= |s|
    requires Fits(s, q, BankNameTail, [1, n, nv, 1])
    ensures GroupText(s, q, BankNameTail, [1, n, nv, 1]) == s[q + 1 + n..q + 1 + n + nv]
  {
    BankNameTailPieces();
    Counts4(1, n, nv, 1);
    GroupTextSkip(s, q, ColonOnce, [Spaces] + ([LazyLine] + [Newline]), 1, [n] + ([nv] + [1]));
    GroupTextSkip(s, q + 1, Spaces, [LazyLine] + [Newline], n, [nv] + [1]);
    GroupTextHere(s, q + 1 + n, LazyLine, [Newline], nv, [1]);
  }

  /** Without a colon at `q`, `[:：]\s*(.+?)\n` has no match there. */
  lemma BankNameTailFails(s: string, q: nat)
    requires q < |s| ==> !InClass(Colon, s[q])
    ensures NoMatchIn(s, BankNameTail, q, q + 1)
  {
    BankNameTailPieces();
    forall fs ensures !Fits(s, q, BankNameTail, fs) {
      if Fits(s, q, BankNameTail, fs) {
        FitsCons(s, q, ColonOnce, [Spaces] + ([LazyLine] + [Newline]), fs);
      }
    }
  }

  /**
   * After `Bank Name`, a colon at `q` and `m > 0` spaces other than newlines, then
   * the newline that ends the text: `.+?` needs a character, so the greedy `\s*`
   * gives back the last space and the value is that one space.
   */
  lemma BankBlankTailMatch(s: string, q: nat, m: nat)
    requires 1 <= m && q + m + 2 == |s|
    requires InClass(Colon, s[q])
    requires forall k :: q + 1 <= k < q + 1 + m ==> IsSpace(s[k]) && s[k] != '\n'
    requires s[q + 1 + m] == '\n'
    ensures Fits(s, q, BankNameTail, [1, m - 1, 1, 1])
    ensures forall fs :: Fits(s, q, BankNameTail, fs) ==>
      fs == [1, m - 1, 1, 1] || Prefers(BankNameTail, [1, m - 1, 1, 1], fs)
    ensures GroupText(s, q, BankNameTail, [1, m - 1, 1, 1]) == s[q + m..q + m + 1]
  {
    BankNameTailFits(s, q, m - 1, 1);
    forall fs | Fits(s, q, BankNameTail, fs)
      ensures fs == [1, m - 1, 1, 1] || Prefers(BankNameTail, [1, m - 1, 1, 1], fs)
    {
      BankBlankChoice(s, q, m, fs);
    }
    BankNameTailGroup(s, q, m - 1, 1);
  }

  lemma BankBlankChoice(s: string, q: nat, m: nat, fs: seq<nat>)
    requires 1 <= m && q + m + 2 == |s|
    requires forall k :: q + 1 <= k < q + 1 + m ==> IsSpace(s[k]) && s[k] != '\n'
    requires s[q + 1 + m] == '\n'
    requires Fits(s, q, BankNameTail, fs)
    ensures fs == [1, m - 1, 1, 1] || Prefers(BankNameTail, [1, m - 1, 1, 1], fs)
  {
    BankNameTailPieces();
    Counts4(1, m - 1, 1, 1);
    var rest := [Spaces] + ([LazyLine] + [Newline]);
    FitsCons(s, q, ColonOnce, rest, fs);
    BankBlankSpacesChoice(s, q + 1, m, fs[1..]);
    if fs[1..] != [m - 1] + ([1] + [1]) {
      PrefersLater(ColonOnce, rest, 1, [m - 1] + ([1] + [1]), fs[1..]);
    }
  }

  /** The value must end right before the only newline, and the greedy `\s*` leaves it one character. */
  lemma BankBlankSpacesChoice(s: string, p: nat, m: nat, gs: seq<nat>)
    requires 1 <= m && p + m + 1 == |s|
    requires forall k :: p <= k < p + m ==> IsSpace(s[k]) && s[k] != '\n'
    requires s[p + m] == '\n'
    requires Fits(s, p, [Spaces] + ([LazyLine] + [Newline]), gs)
    ensures gs == [m - 1] + ([1] + [1]) || Prefers([Spaces] + ([LazyLine] + [Newline]), [m - 1] + ([1] + [1]), gs)
  {
    FitsCons(s, p, Spaces, [LazyLine] + [Newline], gs);
    var g := gs[0];
    FitsCons(s, p + g, LazyLine, [Newline], gs[1..]);
    var nv := gs[1..][0];
    FitsCons(s, p + g + nv, Newline, [], gs[1..][1..]);
    assert s[p + g + nv] == '\n';
    assert g + nv == m;
    if g < m - 1 {
      PrefersHere(Spaces, [LazyLine] + [Newline], m - 1, [1] + [1], g, gs[1..]);
    } else {
      LazyLineChoice(s, p + g, 1, gs[1..]);
    }
  }

  // ---------------------------------------------------------------------------
  // `\s*[:：]\s*(cls+)\n`

  /**
   * After `Account No.` or `Phone`: `n1` spaces, a colon, `n2` spaces, then `nv`
   * characters of the value class ending with a newline, the first not a space,
   * and after that newline a class run without a newline. The engine takes all
   * the spaces (greedy `\s*`) and all `nv` characters: the greedy class backs off
   * from the end of its run to the last newline, which is the one at `nv`.
   */
  lemma KeyValueTailMatch(s: string, q: nat, n1: nat, n2: nat, nv: nat, cls: CharClass)
    requires cls == DigitUpperSpace || cls == DigitSpace
    requires KeyValueTailLayout(s, q, n1, n2, nv, cls)
    ensures Fits(s, q, KeyValueTail(cls), [n1, 1, n2, nv, 1])
    ensures forall fs :: Fits(s, q, KeyValueTail(cls), fs) ==>
      fs == [n1, 1, n2, nv, 1] || Prefers(KeyValueTail(cls), [n1, 1, n2, nv, 1], fs)
    ensures GroupText(s, q, KeyValueTail(cls), [n1, 1, n2, nv, 1]) ==
      s[q + n1 + 1 + n2..q + n1 + 1 + n2 + nv]
  {
    KeyValueTailFits(s, q, n1, n2, nv, cls);
    forall fs | Fits(s, q, KeyValueTail(cls), fs)
      ensures fs == [n1, 1, n2, nv, 1] || Prefers(KeyValueTail(cls), [n1, 1, n2, nv, 1], fs)
    {
      KeyValueTailChoice(s, q, n1, n2, nv, cls, fs);
    }
    KeyValueTailGroup(s, q, n1, n2, nv, cls);
  }

  /**
   * From `q`: `n1` spaces, a colon, `n2` spaces, then `nv` characters of the value
   * class, the first not a space, ending with a newline, after which the class
   * run holds no newline.
   */
  ghost predicate KeyValueTailLayout(s: string, q: nat, n1: nat, n2: nat, nv: nat, cls: CharClass) {
    q + n1 + 1 + n2 + nv + 1 <= |s| &&
    (forall k :: q <= k < q + n1 ==> IsSpace(s[k])) &&
    InClass(Colon, s[q + n1]) &&
    (forall k :: q + n1 + 1 <= k < q + n1 + 1 + n2 ==> IsSpace(s[k])) &&
    nv > 0 && !IsSpace(s[q + n1 + 1 + n2]) &&
    (forall k :: q + n1 + 1 + n2 <= k < q + n1 + 1 + n2 + nv ==> InClass(cls, s[k])) &&
    s[q + n1 + 1 + n2 + nv] == '\n' &&
    RunWithoutNewline(s[q + n1 + 1 + n2 + nv + 1..], cls)
  }

  lemma KeyValueTailFits(s: string, q: nat, n1: nat, n2: nat, nv: nat, cls: CharClass)
    requires q + n1 + 1 + n2 + nv + 1 <= |s|
    requires forall k :: q <= k < q + n1 ==> IsSpace(s[k])
    requires InClass(Colon, s[q + n1])
    requires forall k :: q + n1 + 1 <= k < q + n1 + 1 + n2 ==> IsSpace(s[k])
    requires nv > 0
    requires forall k :: q + n1 + 1 + n2 <= k < q + n1 + 1 + n2 + nv ==> InClass(cls, s[k])
    requires s[q + n1 + 1 + n2 + nv] == '\n'
    ensures Fits(s, q, KeyValueTail(cls), [n1, 1, n2, nv, 1])
  {
    ColonFits(s, q + n1, n2, nv, cls);
    FitsIntro(s, q, Spaces, [ColonOnce] + ([Spaces] + ([ValueRun(cls)] + [Newline])),
              n1, [1] + ([n2] + ([nv] + [1])));
    KeyValueTailPieces(cls);
    Counts5(n1, 1, n2, nv, 1);
  }

  lemma ColonFits(s: string, c: nat, n2: nat, nv: nat, cls: CharClass)
    requires c + 1 + n2 + nv < |s|
    requires InClass(Colon, s[c])
    requires forall k :: c + 1 <= k < c + 1 + n2 ==> IsSpace(s[k])
    requires nv > 0
    requires forall k :: c + 1 + n2 <= k < c + 1 + n2 + nv ==> InClass(cls, s[k])
    requires s[c + 1 + n2 + nv] == '\n'
    ensures Fits(s, c, [ColonOnce] + ([Spaces] + ([ValueRun(cls)] + [Newline])), [1] + ([n2] + ([nv] + [1])))
  {
    ValueSpacesFits(s, c + 1, n2, nv, cls);
    FitsIntro(s, c, ColonOnce, [Spaces] + ([ValueRun(cls)] + [Newline]), 1, [n2] + ([nv] + [1]));
  }

  lemma ValueSpacesFits(s: string, p: nat, n2: nat, nv: nat, cls: CharClass)
    requires p + n2 + nv < |s|
    requires forall k :: p <= k < p + n2 ==> IsSpace(s[k])
    requires nv > 0
    requires forall k :: p + n2 <= k < p + n2 + nv ==> InClass(cls, s[k])
    requires s[p + n2 + nv] == '\n'
    ensures Fits(s, p, [Spaces] + ([ValueRun(cls)] + [Newline]), [n2] + ([nv] + [1]))
  {
    ValueFits(s, p + n2, nv, cls);
    FitsIntro(s, p, Spaces, [ValueRun(cls)] + [Newline], n2, [nv] + [1]);
  }

  lemma ValueFits(s: string, r: nat, nv: nat, cls: CharClass)
    requires r + nv < |s| && nv > 0
    requires forall k :: r <= k < r + nv ==> InClass(cls, s[k])
    requires s[r + nv] == '\n'
    ensures Fits(s, r, [ValueRun(cls)] + [Newline], [nv] + [1])
  {
    NewlineFits(s, r + nv);
    FitsIntro(s, r, ValueRun(cls), [Newline], nv, [1]);
  }

  lemma KeyValueTailChoice(s: string, q: nat, n1: nat, n2: nat, nv: nat, cls: CharClass, fs: seq<nat>)
    requires cls == DigitUpperSpace || cls == DigitSpace
    requires q + n1 + 1 + n2 + nv + 1 <= |s|
    requires forall k :: q <= k < q + n1 ==> IsSpace(s[k])
    requires InClass(Colon, s[q + n1])
    requires forall k :: q + n1 + 1 <= k < q + n1 + 1 + n2 ==> IsSpace(s[k])
    requires !IsSpace(s[q + n1 + 1 + n2])
    requires s[q + n1 + 1 + n2 + nv] == '\n'
    requires RunWithoutNewline(s[q + n1 + 1 + n2 + nv + 1..], cls)
    requires Fits(s, q, KeyValueTail(cls), fs)
    ensures fs == [n1, 1, n2, nv, 1] || Prefers(KeyValueTail(cls), [n1, 1, n2, nv, 1], fs)
  {
    KeyValueTailPieces(cls);
    Counts5(n1, 1, n2, nv, 1);
    KeyValueChoice(s, q, n1, n2, nv, cls, fs);
  }

  lemma KeyValueChoice(s: string, q: nat, n1: nat, n2: nat, nv: nat, cls: CharClass, fs: seq<nat>)
    requires cls == DigitUpperSpace || cls == DigitSpace
    requires q + n1 + 1 + n2 + nv + 1 <= |s|
    requires forall k :: q <= k < q + n1 ==> IsSpace(s[k])
    requires InClass(Colon, s[q + n1])
    requires forall k :: q + n1 + 1 <= k < q + n1 + 1 + n2 ==> IsSpace(s[k])
    requires !IsSpace(s[q + n1 + 1 + n2])
    requires s[q + n1 + 1 + n2 + nv] == '\n'
    requires RunWithoutNewline(s[q + n1 + 1 + n2 + nv + 1..], cls)
    requires Fits(s, q, [Spaces] + ([ColonOnce] + ([Spaces] + ([ValueRun(cls)] + [Newline]))), fs)
    ensures fs == [n1] + ([1] + ([n2] + ([nv] + [1]))) ||
      Prefers([Spaces] + ([ColonOnce] + ([Spaces] + ([ValueRun(cls)] + [Newline]))),
              [n1] + ([1] + ([n2] + ([nv] + [1]))), fs)
  {
    var rest := [ColonOnce] + ([Spaces] + ([ValueRun(cls)] + [Newline]));
    var es := [1] + ([n2] + ([nv] + [1]));
    LeadingSpacesCount(s, q, n1, rest, fs);
    ColonChoice(s, q + n1, n2, nv, cls, fs[1..]);
    if fs[1..] != es {
      PrefersLater(Spaces, rest, n1, es, fs[1..]);
    }
  }

  /** The first `\s*` of a match takes exactly the `n1` spaces before the colon. */
  lemma LeadingSpacesCount(s: string, q: nat, n1: nat, rest: Pattern, fs: seq<nat>)
    requires q + n1 < |s|
    requires forall k :: q <= k < q + n1 ==> IsSpace(s[k])
    requires InClass(Colon, s[q + n1])
    requires rest != [] && rest[0] == ColonOnce
    requires Fits(s, q, [Spaces] + rest, fs)
    ensures fs == [n1] + fs[1..] && Fits(s, q + n1, rest, fs[1..])
  {
    FitsCons(s, q, Spaces, rest, fs);
    var f := fs[0];
    assert rest == [ColonOnce] + rest[1..];
    FitsCons(s, q + f, ColonOnce, rest[1..], fs[1..]);
    assert InClass(Colon, s[q + f]);
    assert !IsSpace(s[q + f]);
    assert f <= n1 by {
      assert !IsSpace(s[q + n1]);
    }
    assert f == n1;
  }

  lemma ColonChoice(s: string, c: nat, n2: nat, nv: nat, cls: CharClass, gs: seq<nat>)
    requires cls == DigitUpperSpace || cls == DigitSpace
    requires c + 1 + n2 + nv < |s|
    requires forall k :: c + 1 <= k < c + 1 + n2 ==> IsSpace(s[k])
    requires !IsSpace(s[c + 1 + n2])
    requires s[c + 1 + n2 + nv] == '\n'
    requires RunWithoutNewline(s[c + 1 + n2 + nv + 1..], cls)
    requires Fits(s, c, [ColonOnce] + ([Spaces] + ([ValueRun(cls)] + [Newline])), gs)
    ensures gs == [1] + ([n2] + ([nv] + [1])) ||
      Prefers([ColonOnce] + ([Spaces] + ([ValueRun(cls)] + [Newline])), [1] + ([n2] + ([nv] + [1])), gs)
  {
    var rest := [Spaces] + ([ValueRun(cls)] + [Newline]);
    FitsCons(s, c, ColonOnce, rest, gs);
    ValueSpacesChoice(s, c + 1, n2, nv, cls, gs[1..]);
    if gs[1..] != [n2] + ([nv] + [1]) {
      PrefersLater(ColonOnce, rest, 1, [n2] + ([nv] + [1]), gs[1..]);
    }
  }

  /** The second greedy `\s*` takes all `n2` spaces, or the match is less preferred. */
  lemma ValueSpacesChoice(s: string, p: nat, n2: nat, nv: nat, cls: CharClass, gs: seq<nat>)
    requires cls == DigitUpperSpace || cls == DigitSpace
    requires p + n2 + nv < |s|
    requires forall k :: p <= k < p + n2 ==> IsSpace(s[k])
    requires !IsSpace(s[p + n2])
    requires s[p + n2 + nv] == '\n'
    requires RunWithoutNewline(s[p + n2 + nv + 1..], cls)
    requires Fits(s, p, [Spaces] + ([ValueRun(cls)] + [Newline]), gs)
    ensures gs == [n2] + ([nv] + [1]) ||
      Prefers([Spaces] + ([ValueRun(cls)] + [Newline]), [n2] + ([nv] + [1]), gs)
  {
    var rest := [ValueRun(cls)] + [Newline];
    FitsCons(s, p, Spaces, rest, gs);
    var g := gs[0];
    assert g <= n2 by {
      assert !IsSpace(s[p + n2]);
    }
    if g < n2 {
      PrefersHere(Spaces, rest, n2, [nv] + [1], g, gs[1..]);
    } else {
      ValueChoice(s, p + n2, nv, cls, gs[1..]);
      if gs[1..] != [nv] + [1] {
        PrefersLater(Spaces, rest, n2, [nv] + [1], gs[1..]);
      }
    }
  }

  /**
   * The greedy value class, which holds the newline, followed by a newline: the
   * longest choice is the run up to the last newline before a character outside
   * the class, and every shorter one is less preferred.
   */
  lemma ValueChoice(s: string, r: nat, nv: nat, cls: CharClass, gs: seq<nat>)
    requires cls == DigitUpperSpace || cls == DigitSpace
    requires r + nv < |s|
    requires s[r + nv] == '\n'
    requires RunWithoutNewline(s[r + nv + 1..], cls)
    requires Fits(s, r, [ValueRun(cls)] + [Newline], gs)
    ensures gs == [nv] + [1] || Prefers([ValueRun(cls)] + [Newline], [nv] + [1], gs)
  {
    FitsCons(s, r, ValueRun(cls), [Newline], gs);
    var g := gs[0];
    FitsCons(s, r + g, Newline, [], gs[1..]);
    assert s[r + g] == '\n';
    assert gs[1..] == [1];
    LastNewlineBound(s, r, nv, g, cls);
    if g < nv {
      PrefersHere(ValueRun(cls), [Newline], nv, [1], g, gs[1..]);
    }
  }

  /** A value run that ends at a newline cannot reach past the newline at `r + nv`. */
  lemma LastNewlineBound(s: string, r: nat, nv: nat, g: nat, cls: CharClass)
    requires cls == DigitUpperSpace || cls == DigitSpace
    requires r + nv < |s| && RunWithoutNewline(s[r + nv + 1..], cls)
    requires r + g < |s| && s[r + g] == '\n'
    requires forall k :: r <= k < r + g ==> InClass(cls, s[k])
    ensures g <= nv
  {
    if g > nv {
      var t := s[r + nv + 1..];
      forall j | 0 <= j <= g - nv - 1 ensures InClass(cls, t[j]) {
        assert t[j] == s[r + nv + 1 + j];
      }
      assert t[g - nv - 1] == s[r + g];
      RunWithoutNewlineAt(t, cls, g - nv - 1);
    }
  }

  lemma KeyValueTailGroup(s: string, q: nat, n1: nat, n2: nat, nv: nat, cls: CharClass)
    requires q + n1 + 1 + n2 + nv <= |s|
    requires Fits(s, q, KeyValueTail(cls), [n1, 1, n2, nv, 1])
    ensures GroupText(s, q, KeyValueTail(cls), [n1, 1, n2, nv, 1]) ==
      s[q + n1 + 1 + n2..q + n1 + 1 + n2 + nv]
  {
    KeyValueTailPieces(cls);
    Counts5(n1, 1, n2, nv, 1);
    KeyValueGroup(s, q, n1, n2, nv, cls);
  }

  lemma KeyValueGroup(s: string, q: nat, n1: nat, n2: nat, nv: nat, cls: CharClass)
    requires q + n1 + 1 + n2 + nv <= |s|
    requires Fits(s, q, [Spaces] + ([ColonOnce] + ([Spaces] + ([ValueRun(cls)] + [Newline]))),
                  [n1] + ([1] + ([n2] + ([nv] + [1]))))
    ensures GroupText(s, q, [Spaces] + ([ColonOnce] + ([Spaces] + ([ValueRun(cls)] + [Newline]))),
                      [n1] + ([1] + ([n2] + ([nv] + [1])))) ==
      s[q + n1 + 1 + n2..q + n1 + 1 + n2 + nv]
  {
    var c := q + n1;
    GroupTextSkip(s, q, Spaces, [ColonOnce] + ([Spaces] + ([ValueRun(cls)] + [Newline])),
                  n1, [1] + ([n2] + ([nv] + [1])));
    GroupTextSkip(s, c, ColonOnce, [Spaces] + ([ValueRun(cls)] + [Newline]), 1, [n2] + ([nv] + [1]));
    GroupTextSkip(s, c + 1, Spaces, [ValueRun(cls)] + [Newline], n2, [nv] + [1]);
    GroupTextHere(s, c + 1 + n2, ValueRun(cls), [Newline], nv, [1]);
  }


  /**
   * After a label: `n1` spaces, a colon, `n2` spaces other than newlines, then a
   * character outside the value class. The value would have to end with a
   * newline inside those spaces, so `\s*[:：]\s*(cls+)\n` has no match at `q`.
   */
  lemma KeyValueTailFails(s: string, q: nat, n1: nat, n2: nat, cls: CharClass)
    requires cls == DigitUpperSpace || cls == DigitSpace
    requires q + n1 + 1 + n2 < |s|
    requires forall k :: q <= k < q + n1 ==> IsSpace(s[k])
    requires InClass(Colon, s[q + n1])
    requires forall k :: q + n1 + 1 <= k < q + n1 + 1 + n2 ==> IsSpace(s[k]) && s[k] != '\n'
    requires !InClass(cls, s[q + n1 + 1 + n2])
    ensures NoMatchIn(s, KeyValueTail(cls), q, q + 1)
  {
    KeyValueTailPieces(cls);
    forall fs ensures !Fits(s, q, KeyValueTail(cls), fs) {
      ColonFails(s, q, n1, n2, cls, fs);
    }
  }

  lemma ColonFails(s: string, q: nat, n1: nat, n2: nat, cls: CharClass, fs: seq<nat>)
    requires cls == DigitUpperSpace || cls == DigitSpace
    requires q + n1 + 1 + n2 < |s|
    requires forall k :: q <= k < q + n1 ==> IsSpace(s[k])
    requires InClass(Colon, s[q + n1])
    requires forall k :: q + n1 + 1 <= k < q + n1 + 1 + n2 ==> IsSpace(s[k]) && s[k] != '\n'
    requires !InClass(cls, s[q + n1 + 1 + n2])
    ensures !Fits(s, q, [Spaces] + ([ColonOnce] + ([Spaces] + ([ValueRun(cls)] + [Newline]))), fs)
  {
    ColonFitsStart(s, q, cls, fs);
    ValueFails(s, q + n1 + 1, n2, cls);
  }

  /** Any match of the key/value tail: spaces, then a colon, then a match of the rest. */
  lemma ColonFitsStart(s: string, q: nat, cls: CharClass, fs: seq<nat>)
    ensures Fits(s, q, [Spaces] + ([ColonOnce] + ([Spaces] + ([ValueRun(cls)] + [Newline]))), fs) ==>
      |fs| == 5 && q + fs[0] < |s| &&
      (forall k :: q <= k < q + fs[0] ==> IsSpace(s[k])) && InClass(Colon, s[q + fs[0]]) &&
      Fits(s, q + fs[0] + 1, [Spaces] + ([ValueRun(cls)] + [Newline]), fs[2..])
  {
    var rest := [Spaces] + ([ValueRun(cls)] + [Newline]);
    if Fits(s, q, [Spaces] + ([ColonOnce] + rest), fs) {
      FitsCons(s, q, Spaces, [ColonOnce] + rest, fs);
      FitsCons(s, q + fs[0], ColonOnce, rest, fs[1..]);
      assert InClass(Colon, s[q + fs[0]]);
      assert fs[1..][1..] == fs[2..];
    }
  }

  /** Spaces other than newlines, then a character outside the value class: no value ending with a newline starts at `r`. */
  lemma ValueFails(s: string, r: nat, n: nat, cls: CharClass)
    requires cls == DigitUpperSpace || cls == DigitSpace
    requires r + n < |s|
    requires forall k :: r <= k < r + n ==> IsSpace(s[k]) && s[k] != '\n'
    requires !InClass(cls, s[r + n])
    ensures NoMatchIn(s, [Spaces] + ([ValueRun(cls)] + [Newline]), r, r + 1)
  {
    forall gs ensures !Fits(s, r, [Spaces] + ([ValueRun(cls)] + [Newline]), gs) {
      ValueFitsEnd(s, r, cls, gs);
    }
  }

  /** Any match of `\s*(cls+)\n`: spaces, then characters of the class, then a newline. */
  lemma ValueFitsEnd(s: string, r: nat, cls: CharClass, gs: seq<nat>)
    ensures Fits(s, r, [Spaces] + ([ValueRun(cls)] + [Newline]), gs) ==>
      |gs| == 3 && gs[1] >= 1 && r + gs[0] + gs[1] < |s| && s[r + gs[0] + gs[1]] == '\n' &&
      (forall k :: r <= k < r + gs[0] ==> IsSpace(s[k])) &&
      (forall k :: r + gs[0] <= k < r + gs[0] + gs[1] ==> InClass(cls, s[k]))
  {
    if Fits(s, r, [Spaces] + ([ValueRun(cls)] + [Newline]), gs) {
      FitsCons(s, r, Spaces, [ValueRun(cls)] + [Newline], gs);
      var g := gs[0];
      FitsCons(s, r + g, ValueRun(cls), [Newline], gs[1..]);
      var nv := gs[1..][0];
      FitsCons(s, r + g + nv, Newline, [], gs[1..][1..]);
      assert s[r + g + nv] == '\n';
    }
  }

  /**
   * The label `word` occurs at `i`, no match starts before it, and it is followed
   * by a colon, `n` spaces and a value of `nv` characters up to a newline, the
   * first of them not a space: `Literal(word) + BankNameTail` captures that value.
   */
  lemma BankNameTailAt(s: string, word: string, i: nat, n: nat, nv: nat)
    requires OccursAt(s, word, i) && NoMatchIn(s, Literal(word) + BankNameTail, 0, i)
    requires i + |word| + 1 + n + nv + 1 <= |s|
    requires InClass(Colon, s[i + |word|])
    requires forall k :: i + |word| + 1 <= k < i + |word| + 1 + n ==> IsSpace(s[k])
    requires nv > 0 && !IsSpace(s[i + |word| + 1 + n])
    requires forall k :: i + |word| + 1 + n <= k < i + |word| + 1 + n + nv ==> s[k] != '\n'
    requires s[i + |word| + 1 + n + nv] == '\n'
    ensures Capture(s, Literal(word) + BankNameTail) == Some(s[i + |word| + 1 + n..i + |word| + 1 + n + nv])
  {
    BankNameTailMatch(s, i + |word|, n, nv);
    LabelledCapture(s, word, BankNameTail, i, [1, n, nv, 1]);
  }

  /**
   * The label `word` occurs at `i`, no match starts before it, and it is followed
   * by `n1` spaces, a colon, `n2` spaces and a run of `nv` characters of the
   * value class that starts with no space and ends with a newline, after which
   * the class run holds no newline:
   * `Literal(word) + KeyValueTail(cls)` captures that run.
   */
  lemma KeyValueAt(s: string, word: string, i: nat, n1: nat, n2: nat, nv: nat, cls: CharClass)
    requires cls == DigitUpperSpace || cls == DigitSpace
    requires OccursAt(s, word, i) && NoMatchIn(s, Literal(word) + KeyValueTail(cls), 0, i)
    requires KeyValueTailLayout(s, i + |word|, n1, n2, nv, cls)
    ensures Capture(s, Literal(word) + KeyValueTail(cls)) ==
      Some(s[i + |word| + n1 + 1 + n2..i + |word| + n1 + 1 + n2 + nv])
  {
    KeyValueCaptureAt(s, word, i, i + |word|, n1, n2, nv, cls);
  }

  /** `KeyValueAt` with the label's end named `q`, which keeps the proof small. */
  lemma KeyValueCaptureAt(s: string, word: string, i: nat, q: nat, n1: nat, n2: nat, nv: nat, cls: CharClass)
    requires cls == DigitUpperSpace || cls == DigitSpace
    requires q == i + |word|
    requires OccursAt(s, word, i) && NoMatchIn(s, Literal(word) + KeyValueTail(cls), 0, i)
    requires KeyValueTailLayout(s, q, n1, n2, nv, cls)
    ensures Capture(s, Literal(word) + KeyValueTail(cls)) == Some(s[q + n1 + 1 + n2..q + n1 + 1 + n2 + nv])
  {
    KeyValueTailMatch(s, q, n1, n2, nv, cls);
    CaptureAfterLabel(s, word, KeyValueTail(cls), i, q, [n1, 1, n2, nv, 1], s[q + n1 + 1 + n2..q + n1 + 1 + n2 + nv]);
  }

  /** `Regex.LabelledCapture` for a tail whose preferred match and group are already known. */
  lemma CaptureAfterLabel(s: string, word: string, tail: Pattern, i: nat, q: nat, es: seq<nat>, g: string)
    requires q == i + |word| && OccursAt(s, word, i) && NoMatchIn(s, Literal(word) + tail, 0, i)
    requires Fits(s, q, tail, es)
    requires forall fs :: Fits(s, q, tail, fs) ==> fs == es || Prefers(tail, es, fs)
    requires GroupText(s, q, tail, es) == g
    ensures Capture(s, Literal(word) + tail) == Some(g)
  {
    LabelledCapture(s, word, tail, i, es);
  }

  /** The characters of `y` in `x + y + z` sit `|x|` further on. */
  lemma Middle(x: string, y: string, z: string)
    ensures (x + y + z)[|x|..|x| + |y|] == y
    ensures forall k :: |x| <= k < |x| + |y| ==> (x + y + z)[k] == y[k - |x|]
  {
    assert (x + y + z)[|x|..|x| + |y|] == y;
  }

  /**
   * A text `pre + word + colon + sp + v + "\n" + rest`: where no match of the
   * pattern `Literal(word) + BankNameTail` starts in `pre` and `v` starts with no
   * space and holds no newline, the pattern captures `v`.
   */
  lemma BankLine(pre: string, word: string, colon: char, sp: string, v: string, rest: string)
    requires NoMatchIn(pre + word + [colon] + sp + v + "\n" + rest, Literal(word) + BankNameTail, 0, |pre|)
    requires InClass(Colon, colon) && AllSpace(sp)
    requires v != [] && !IsSpace(v[0]) && '\n' !in v
    ensures Capture(pre + word + [colon] + sp + v + "\n" + rest, Literal(word) + BankNameTail) == Some(v)
  {
    var s := pre + word + [colon] + sp + v + "\n" + rest;
    BankNameFacts(pre, word, colon, sp, v, rest);
    BankNameTailAt(s, word, |pre|, |sp|, |v|);
  }

  /**
   * A text with a line `Bank Name:<spaces><value>⏎`, and no earlier occurrence of
   * `Bank Name`, has as its bank name the value with surrounding whitespace stripped.
   */
  lemma BankNameLine(text: string, pre: string, colon: char, sp: string, v: string, rest: string)
    requires text == pre + "Bank Name" + [colon] + sp + v + "\n" + rest
    requires forall j :: 0 <= j < |pre| ==> !OccursAt(text, "Bank Name", j)
    requires InClass(Colon, colon) && AllSpace(sp)
    requires v != [] && !IsSpace(v[0]) && '\n' !in v
    ensures BankNameOf(text) == Some(Strip(v))
  {
    var w := "Bank Name";
    LabelAbsentNoMatch(text, w, BankNameTail, 0, |pre|);
    BankLine(pre, w, colon, sp, v, rest);
  }

  /** The facts `BankNameTailAt` needs, for a text laid out as a `Bank Name` line. */
  lemma BankNameFacts(pre: string, word: string, colon: char, sp: string, v: string, rest: string)
    requires AllSpace(sp) && v != [] && '\n' !in v
    ensures var s := pre + word + [colon] + sp + v + "\n" + rest;
      var i := |pre| + |word|;
      OccursAt(s, word, |pre|) &&
      i + 1 + |sp| + |v| + 1 <= |s| && s[i] == colon &&
      (forall k :: i + 1 <= k < i + 1 + |sp| ==> IsSpace(s[k])) &&
      s[i + 1 + |sp|] == v[0] &&
      (forall k :: i + 1 + |sp| <= k < i + 1 + |sp| + |v| ==> s[k] != '\n') &&
      s[i + 1 + |sp| + |v|] == '\n' &&
      s[i + 1 + |sp|..i + 1 + |sp| + |v|] == v
  {
    var s := pre + word + [colon] + sp + v + "\n" + rest;
    var i, n := |pre| + |word|, |sp|;
    BankNameLayout(pre, word, colon, sp, v, rest);
    forall k | i + 1 <= k < i + 1 + n ensures IsSpace(s[k]) {
      assert s[k] == sp[k - (i + 1)];
    }
    forall k | i + 1 + n <= k < i + 1 + n + |v| ensures s[k] != '\n' {
      assert s[k] == v[k - (i + 1 + n)];
    }
  }

  /** Where the parts of a `Bank Name` line sit in the text. */
  lemma BankNameLayout(pre: string, word: string, colon: char, sp: string, v: string, rest: string)
    ensures var s := pre + word + [colon] + sp + v + "\n" + rest;
      var i := |pre| + |word|;
      OccursAt(s, word, |pre|) &&
      (forall j :: 0 <= j < |pre| ==> s[j] == pre[j]) &&
      i + 1 + |sp| + |v| + 1 <= |s| && s[i] == colon &&
      (forall k :: i + 1 <= k < i + 1 + |sp| ==> s[k] == sp[k - (i + 1)]) &&
      s[i + 1 + |sp|..i + 1 + |sp| + |v|] == v &&
      (forall k :: i + 1 + |sp| <= k < i + 1 + |sp| + |v| ==> s[k] == v[k - (i + 1 + |sp|)]) &&
      s[i + 1 + |sp| + |v|] == '\n'
  {
    var x := pre + word;
    var s := pre + word + [colon] + sp + v + "\n" + rest;
    assert s == pre + word + ([colon] + sp + v + "\n" + rest);
    KeyValueLayoutWord(pre, word, [colon] + sp + v + "\n" + rest);
    assert s == x + [colon] + sp + (v + "\n" + rest);
    BankNameLayoutHead(x, colon, sp, v + "\n" + rest);
    KeyValueLayoutValue(x + [colon] + sp, v, rest);
  }

  lemma BankNameLayoutHead(x: string, colon: char, sp: string, b: string)
    ensures var s := x + [colon] + sp + b;
      s[|x|] == colon &&
      (forall k :: |x| + 1 <= k < |x| + 1 + |sp| ==> s[k] == sp[k - (|x| + 1)])
  {
  }

  /** Where the parts of an `Account No.` or `Phone` line sit in the text. */
  lemma KeyValueLayout(pre: string, word: string, sp1: string, colon: char, sp2: string, v: string, rest: string)
    ensures var s := pre + word + sp1 + [colon] + sp2 + v + "\n" + rest;
      var i := |pre| + |word|;
      var r := i + |sp1| + 1 + |sp2|;
      OccursAt(s, word, |pre|) &&
      (forall j :: 0 <= j < |pre| ==> s[j] == pre[j]) &&
      r + |v| + 1 <= |s| &&
      (forall k :: i <= k < i + |sp1| ==> s[k] == sp1[k - i]) &&
      s[i + |sp1|] == colon &&
      (forall k :: i + |sp1| + 1 <= k < r ==> s[k] == sp2[k - (i + |sp1| + 1)]) &&
      s[r..r + |v|] == v &&
      (forall k :: r <= k < r + |v| ==> s[k] == v[k - r]) &&
      s[r + |v|] == '\n' &&
      s[r + |v| + 1..] == rest
  {
    var x := pre + word;
    var s := pre + word + sp1 + [colon] + sp2 + v + "\n" + rest;
    assert s == x + sp1 + [colon] + sp2 + v + "\n" + rest;
    KeyValueLayoutHead(x, sp1, colon, sp2, v + "\n" + rest);
    assert s == x + sp1 + [colon] + sp2 + v + "\n" + rest;
    KeyValueLayoutWord(pre, word, sp1 + [colon] + sp2 + v + "\n" + rest);
    KeyValueLayoutValue(x + sp1 + [colon] + sp2, v, rest);
  }

  lemma KeyValueLayoutWord(pre: string, word: string, a: string)
    ensures OccursAt(pre + word + a, word, |pre|)
    ensures forall j :: 0 <= j < |pre| ==> (pre + word + a)[j] == pre[j]
  {
    Middle(pre, word, a);
  }

  lemma KeyValueLayoutHead(x: string, sp1: string, colon: char, sp2: string, b: string)
    ensures var s := x + sp1 + [colon] + sp2 + b;
      (forall k :: |x| <= k < |x| + |sp1| ==> s[k] == sp1[k - |x|]) &&
      s[|x| + |sp1|] == colon &&
      (forall k :: |x| + |sp1| + 1 <= k < |x| + |sp1| + 1 + |sp2| ==> s[k] == sp2[k - (|x| + |sp1| + 1)])
  {
  }

  lemma KeyValueLayoutValue(y: string, v: string, rest: string)
    ensures var s := y + v + "\n" + rest;
      (forall k :: |y| <= k < |y| + |v| ==> s[k] == v[k - |y|]) &&
      s[|y|..|y| + |v|] == v &&
      s[|y| + |v|] == '\n' &&
      s[|y| + |v| + 1..] == rest
  {
    Middle(y, v, "\n" + rest);
    assert y + v + "\n" + rest == y + v + ("\n" + rest);
  }

  /** The facts `KeyValueAt` needs, for a text laid out as an `Account No.` or `Phone` line. */
  lemma KeyValueFacts(pre: string, word: string, sp1: string, colon: char, sp2: string, v: string,
                      rest: string, cls: CharClass)
    requires AllSpace(sp1) && InClass(Colon, colon) && AllSpace(sp2)
    requires v != [] && !IsSpace(v[0]) && forall k :: 0 <= k < |v| ==> InClass(cls, v[k])
    requires RunWithoutNewline(rest, cls)
    ensures var s := pre + word + sp1 + [colon] + sp2 + v + "\n" + rest;
      var i := |pre| + |word|;
      var r := i + |sp1| + 1 + |sp2|;
      OccursAt(s, word, |pre|) &&
      KeyValueTailLayout(s, i, |sp1|, |sp2|, |v|, cls) &&
      s[r..r + |v|] == v
  {
    var s := pre + word + sp1 + [colon] + sp2 + v + "\n" + rest;
    var i := |pre| + |word|;
    var r := i + |sp1| + 1 + |sp2|;
    KeyValueLayout(pre, word, sp1, colon, sp2, v, rest);
    forall k | i <= k < i + |sp1| ensures IsSpace(s[k]) {
      assert s[k] == sp1[k - i];
    }
    forall k | i + |sp1| + 1 <= k < r ensures IsSpace(s[k]) {
      assert s[k] == sp2[k - (i + |sp1| + 1)];
    }
    forall k | r <= k < r + |v| ensures InClass(cls, s[k]) {
      assert s[k] == v[k - r];
    }
    assert |s| == r + |v| + 1 + |rest|;
  }

  /**
   * A text `pre + word + sp1 + colon + sp2 + v + "\n" + rest`: where no match of
   * the pattern `Literal(word) + KeyValueTail(cls)` starts in `pre` and `v` is a
   * run of the value class that starts with no space and ends right before a
   * newline, and the class run at the start of `rest` holds no newline, the
   * pattern captures `v`.
   */
  lemma KeyValueLine(pre: string, word: string, sp1: string, colon: char, sp2: string, v: string,
                     rest: string, cls: CharClass)
    requires cls == DigitUpperSpace || cls == DigitSpace
    requires NoMatchIn(pre + word + sp1 + [colon] + sp2 + v + "\n" + rest, Literal(word) + KeyValueTail(cls), 0, |pre|)
    requires AllSpace(sp1) && InClass(Colon, colon) && AllSpace(sp2)
    requires v != [] && !IsSpace(v[0]) && forall k :: 0 <= k < |v| ==> InClass(cls, v[k])
    requires RunWithoutNewline(rest, cls)
    ensures Capture(pre + word + sp1 + [colon] + sp2 + v + "\n" + rest, Literal(word) + KeyValueTail(cls)) == Some(v)
  {
    var s := pre + word + sp1 + [colon] + sp2 + v + "\n" + rest;
    KeyValueFacts(pre, word, sp1, colon, sp2, v, rest, cls);
    KeyValueAt(s, word, |pre|, |sp1|, |sp2|, |v|, cls);
  }

  /** A well-formed `Account No.` line, with no earlier occurrence of its label, gives its value with all whitespace removed. */
  lemma AccountNumberLine(text: string, pre: string, sp1: string, colon: char, sp2: string, v: string, rest: string)
    requires text == pre + "Account No." + sp1 + [colon] + sp2 + v + "\n" + rest
    requires forall j :: 0 <= j < |pre| ==> !OccursAt(text, "Account No.", j)
    requires AllSpace(sp1) && InClass(Colon, colon) && AllSpace(sp2)
    requires v != [] && !IsSpace(v[0]) && forall k :: 0 <= k < |v| ==> InClass(DigitUpperSpace, v[k])
    requires RunWithoutNewline(rest, DigitUpperSpace)
    ensures AccountNumberOf(text) == Some(NonSpace(v))
  {
    var w := "Account No.";
    LabelAbsentNoMatch(text, w, KeyValueTail(DigitUpperSpace), 0, |pre|);
    KeyValueLine(pre, w, sp1, colon, sp2, v, rest, DigitUpperSpace);
  }

  /** A well-formed `Phone` line, with no earlier occurrence of its label, gives its value with every ' ' removed. */
  lemma PhoneLine(text: string, pre: string, sp1: string, colon: char, sp2: string, v: string, rest: string)
    requires text == pre + "Phone" + sp1 + [colon] + sp2 + v + "\n" + rest
    requires forall j :: 0 <= j < |pre| ==> !OccursAt(text, "Phone", j)
    requires AllSpace(sp1) && InClass(Colon, colon) && AllSpace(sp2)
    requires v != [] && !IsSpace(v[0]) && forall k :: 0 <= k < |v| ==> InClass(DigitSpace, v[k])
    requires RunWithoutNewline(rest, DigitSpace)
    ensures PhoneOf(text) == Some(Replace(v, ' ', ""))
  {
    var w := "Phone";
    LabelAbsentNoMatch(text, w, KeyValueTail(DigitSpace), 0, |pre|);
    KeyValueLine(pre, w, sp1, colon, sp2, v, rest, DigitSpace);
  }

  /** A text where `Bank Name` is never followed by a colon has no bank name. */
  lemma BankNameNeedsColon(text: string)
    requires forall j: nat :: OccursAt(text, "Bank Name", j) && j + 9 < |text| ==> !InClass(Colon, text[j + 9])
    ensures BankNameOf(text) == None
  {
    var w := "Bank Name";
    forall i, ds | 0 <= i <= |text| ensures !Fits(text, i, BankNamePattern, ds) {
      if OccursAt(text, w, i) {
        BankNameTailFails(text, i + |w|);
        TailFailsNoMatch(text, w, BankNameTail, i);
      } else {
        NoLiteralNoFit(text, i, w, BankNameTail, ds);
      }
    }
    SearchCorrect(text, BankNamePattern);
  }

  /**
   * A `Bank Name` line whose value is spaces only and whose newline ends the text:
   * `.+?` takes the last space, and the stripped bank name is empty.
   */
  lemma BlankBankNameLine(text: string, pre: string, colon: char, sp: string)
    requires text == pre + "Bank Name" + [colon] + sp + "\n"
    requires forall j :: 0 <= j < |pre| ==> !OccursAt(text, "Bank Name", j)
    requires InClass(Colon, colon) && sp != [] && AllSpace(sp) && '\n' !in sp
    ensures BankNameOf(text) == Some("")
  {
    var w := "Bank Name";
    var q, m := |pre| + |w|, |sp|;
    BlankBankNameLayout(pre, w, colon, sp);
    BankBlankTailMatch(text, q, m);
    LabelAbsentNoMatch(text, w, BankNameTail, 0, |pre|);
    LabelledCapture(text, w, BankNameTail, |pre|, [1, m - 1, 1, 1]);
    StripOfBlank(text[q + m..q + m + 1]);
  }

  lemma BlankBankNameLayout(pre: string, word: string, colon: char, sp: string)
    requires sp != [] && AllSpace(sp) && '\n' !in sp
    ensures var s := pre + word + [colon] + sp + "\n";
      var q := |pre| + |word|;
      OccursAt(s, word, |pre|) && q + |sp| + 2 == |s| && s[q] == colon &&
      (forall k :: q + 1 <= k < q + 1 + |sp| ==> IsSpace(s[k]) && s[k] != '\n') &&
      s[q + 1 + |sp|] == '\n' && AllSpace(s[q + |sp|..q + |sp| + 1])
  {
    var s := pre + word + [colon] + sp + "\n";
    var q := |pre| + |word|;
    assert s == pre + word + [colon] + sp + [] + "\n" + [];
    BankNameLayout(pre, word, colon, sp, [], []);
    forall k | q + 1 <= k < q + 1 + |sp| ensures IsSpace(s[k]) && s[k] != '\n' {
      assert s[k] == sp[k - (q + 1)];
    }
  }
}
