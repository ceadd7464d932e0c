/**
 The output-filename resolver of the plotting script: from the name of the
 image to write (`aarshjul.png`) and the entries of the output directory it
 picks the first name `<stem><NN>.png` that is not taken, with the counter
 `NN` printed as `{n:02}` and counting up from `n` (1 by default). The
 directory listing is a parameter: the entries `os.listdir(out_dir)` returns.
 */
module OutputPath {
  import opened Text

  /** The extension every output file gets, whatever the input name had. */
  const Extension: string := ".png"

  /** `name.split(".")[0]`: the part of the name before its first dot (all of it when it has none). */
  function Stem(name: string): (stem: string)
    ensures stem <= name
    ensures '.' !in stem
    ensures |stem| < |name| ==> name[|stem|] == '.'
  {
    var parts := Split(name, '.');
    assert parts[0] <= Join(parts, '.');
    parts[0]
  }

  /** The file name tried for counter `n`: `f'{stem}{n:02}.png'`; it starts with the stem and is at least six characters longer. */
  function Candidate(stem: string, n: int): (file: string)
    ensures stem <= file && |file| >= |stem| + 2 + |Extension|
  {
    stem + Pad02(n) + Extension
  }

  /** Between the stem and `.png` a candidate holds the counter, which reads back as `n`. */
  lemma CandidateParts(stem: string, n: int)
    ensures var file := Candidate(stem, n);
            && file[|file| - |Extension|..] == ".png"
            && IsCounterText(file[|stem|..|file| - |Extension|])
            && ParseCounter(file[|stem|..|file| - |Extension|]) == n
  {
    var file := Candidate(stem, n);
    assert file[|stem|..|file| - |Extension|] == Pad02(n);
    PadRoundTrip(n);
  }

  /** Two counters never yield the same candidate name. */
  lemma CandidateInjective(stem: string, a: int, b: int)
    requires Candidate(stem, a) == Candidate(stem, b)
    ensures a == b
  {
    var c := Candidate(stem, a);
    assert Pad02(a) == c[|stem|..|c| - |Extension|];
    assert Pad02(b) == c[|stem|..|c| - |Extension|];
    PadInjective(a, b);
  }

  /**
   `k` is the first free counter from `n` on: its candidate is not in the
   listing, and the candidates of every counter from `n` up to `k - 1` are.
   */
  ghost predicate IsFirstFree(stem: string, listing: seq<string>, n: int, k: int) {
    && n <= k
    && Candidate(stem, k) !in listing
    && forall j :: n <= j < k ==> Candidate(stem, j) in listing
  }

  /** There is at most one first free counter. */
  lemma FirstFreeUnique(stem: string, listing: seq<string>, n: int, k1: int, k2: int)
    requires IsFirstFree(stem, listing, n, k1) && IsFirstFree(stem, listing, n, k2)
    ensures k1 == k2
  {
  }

  /** The entries of the listing that are candidates with a counter of at least `from`. */
  ghost function Taken(stem: string, listing: seq<string>, from: int): set<string> {
    set name | name in listing && exists k :: from <= k && name == Candidate(stem, k)
  }

  lemma {:induction false} SubsetCard<T>(a: set<T>, b: set<T>)
    requires a <= b
    ensures |a| <= |b|
    decreases |b|
  {
    if b != {} {
      var x :| x in b;
      SubsetCard(a - {x}, b - {x});
    }
  }

  lemma {:induction false} ListingCard(listing: seq<string>)
    ensures |set name | name in listing| <= |listing|
  {
    if listing != [] {
      ListingCard(listing[1..]);
      assert (set name | name in listing) == {listing[0]} + set name | name in listing[1..];
    }
  }

  /** Only entries of the listing are counted, so at most |listing| of them. */
  lemma TakenBound(stem: string, listing: seq<string>, from: int)
    ensures |Taken(stem, listing, from)| <= |listing|
  {
    SubsetCard(Taken(stem, listing, from), set name | name in listing);
    ListingCard(listing);
  }

  /** Each step of the search past a taken candidate leaves one taken name fewer ahead of it. */
  lemma TakenShrinks(stem: string, listing: seq<string>, n: int)
    requires Candidate(stem, n) in listing
    ensures |Taken(stem, listing, n + 1)| < |Taken(stem, listing, n)|
  {
    var c := Candidate(stem, n);
    var ahead, rest := Taken(stem, listing, n), Taken(stem, listing, n + 1);
    assert c in ahead;
    forall x | x in rest
      ensures x in ahead - {c}
    {
      var k :| n + 1 <= k && x == Candidate(stem, k);
      if x == c {
        CandidateInjective(stem, n, k);
      }
    }
    SubsetCard(rest, ahead - {c});
  }

  /**
   `increment_filename(name, out_dir, n)`: tries `stem + {n:02} + .png`,
   and while that name is among the directory's entries tries the next
   counter. The result is `out_dir/<name>` for the first free counter, and
   the search takes no more steps than there are taken names ahead of it.
   */
  function IncrementFilename(name: string, outDir: string, listing: seq<string>, n: int): (path: string)
    ensures exists k ::
              && IsFirstFree(Stem(name), listing, n, k)
              && k - n <= |Taken(Stem(name), listing, n)|
              && path == outDir + "/" + Candidate(Stem(name), k)
    decreases |Taken(Stem(name), listing, n)|
  {
    var newName := Candidate(Stem(name), n);
    if newName in listing then
      TakenShrinks(Stem(name), listing, n);
      var path := IncrementFilename(name, outDir, listing, n + 1);
      assert exists k :: && IsFirstFree(Stem(name), listing, n, k)
                         && k - n <= |Taken(Stem(name), listing, n)|
                         && path == outDir + "/" + Candidate(Stem(name), k) by {
        var k :| && IsFirstFree(Stem(name), listing, n + 1, k)
                 && k - (n + 1) <= |Taken(Stem(name), listing, n + 1)|
                 && path == outDir + "/" + Candidate(Stem(name), k);
        assert IsFirstFree(Stem(name), listing, n, k);
      }
      path
    else
      assert IsFirstFree(Stem(name), listing, n, n);
      outDir + "/" + newName
  }

  /** The search stops within |listing| + 1 tries: the chosen counter is at most `n + |listing|`. */
  lemma SearchBound(name: string, outDir: string, listing: seq<string>, n: int)
    ensures exists k ::
              && n <= k <= n + |listing|
              && IncrementFilename(name, outDir, listing, n) == outDir + "/" + Candidate(Stem(name), k)
  {
    var path := IncrementFilename(name, outDir, listing, n);
    var k :| && IsFirstFree(Stem(name), listing, n, k)
             && k - n <= |Taken(Stem(name), listing, n)|
             && path == outDir + "/" + Candidate(Stem(name), k);
    TakenBound(Stem(name), listing, n);
    assert n <= k <= n + |listing|;
  }

  /** The result is `out_dir + "/" + new_name` with `new_name` not in the directory: nothing is overwritten. */
  lemma NoCollision(name: string, outDir: string, listing: seq<string>, n: int)
    ensures var path := IncrementFilename(name, outDir, listing, n);
            && |path| > |outDir|
            && path[..|outDir| + 1] == outDir + "/"
            && path[|outDir| + 1..] !in listing
  {
  }

  /**
   The chosen file name is the input's stem, then the counter of at least
   two characters, then `.png`, whatever extension the input had.
   */
  lemma NameFormat(name: string, outDir: string, listing: seq<string>, n: int)
    ensures var file := IncrementFilename(name, outDir, listing, n)[|outDir| + 1..];
            && |file| >= |Stem(name)| + 2 + |Extension|
            && file[..|Stem(name)|] == Stem(name)
            && file[|file| - |Extension|..] == ".png"
            && '.' !in file[..|file| - |Extension|]
  {
  }

  /** With an empty directory and the default counter the result is `out_dir/<stem>01.png`. */
  lemma EmptyDirectory(name: string, outDir: string)
    ensures IncrementFilename(name, outDir, [], 1) == outDir + "/" + Stem(name) + "01.png"
  {
  }

  /**
   Running the resolver again once its file exists gives another file: the
   second run never overwrites the first.
   */
  lemma SecondRunDiffers(name: string, outDir: string, listing: seq<string>, n: int)
    ensures var first := IncrementFilename(name, outDir, listing, n);
            var second := IncrementFilename(name, outDir, listing + [first[|outDir| + 1..]], n);
            second != first
  {
  }

  /**
   The three properties in the contract of `Stem` pin it down: any prefix
   of the name without a dot that ends at a dot or at the end of the name is
   the stem.
   */
  lemma StemUnique(name: string, s: string)
    requires s <= name && '.' !in s
    requires |s| == |name| || name[|s|] == '.'
    ensures Stem(name) == s
  {
  }

  /** Conversely, the result is fixed by the first free counter: whichever counter that is, its file is chosen. */
  lemma ChosenIsFirstFree(name: string, outDir: string, listing: seq<string>, n: int, k: int)
    requires IsFirstFree(Stem(name), listing, n, k)
    ensures IncrementFilename(name, outDir, listing, n) == outDir + "/" + Candidate(Stem(name), k)
  {
  }

  /** The script's own output name `aarshjul.png` has the stem `aarshjul`. */
  lemma PlotStem(name: string)
    requires name == "aarshjul.png"
    ensures Stem(name) == "aarshjul"
  {
  }

  /** The first six candidates of any stem: `<stem>01.png` to `<stem>06.png`. */
  lemma FirstCandidates(stem: string)
    ensures Candidate(stem, 1) == stem + "01.png"
    ensures Candidate(stem, 2) == stem + "02.png"
    ensures Candidate(stem, 5) == stem + "05.png"
    ensures Candidate(stem, 6) == stem + "06.png"
  {
  }

  lemma SixthIsFirstFree(stem: string, listing: seq<string>)
    requires listing == [Candidate(stem, 1), Candidate(stem, 2), Candidate(stem, 3), Candidate(stem, 4), Candidate(stem, 5)]
    ensures IsFirstFree(stem, listing, 1, 6)
  {
    forall i | 0 <= i < 5
      ensures listing[i] != Candidate(stem, 6)
    {
      if listing[i] == Candidate(stem, 6) {
        CandidateInjective(stem, i + 1, 6);
      }
    }
  }

  /**
   A directory holding `<stem>01.png` to `<stem>05.png` yields
   `<out_dir>/<stem>06.png`; for the script's `aarshjul.png` (see `PlotStem`)
   that is `plots/aarshjul06.png`.
   */
  lemma SixthPlot(name: string, outDir: string, listing: seq<string>)
    requires var stem := Stem(name);
             listing == [Candidate(stem, 1), Candidate(stem, 2), Candidate(stem, 3), Candidate(stem, 4), Candidate(stem, 5)]
    ensures IncrementFilename(name, outDir, listing, 1) == outDir + "/" + Stem(name) + "06.png"
  {
    SixthIsFirstFree(Stem(name), listing);
    ChosenIsFirstFree(name, outDir, listing, 1, 6);
    FirstCandidates(Stem(name));
  }

  lemma SecondIsFirstFree(stem: string)
    ensures IsFirstFree(stem, [], 1, 1)
    ensures IsFirstFree(stem, [Candidate(stem, 1)], 1, 2)
  {
    if Candidate(stem, 2) == Candidate(stem, 1) {
      CandidateInjective(stem, 2, 1);
    }
  }

  /** Two runs into an empty directory write `<stem>01.png` and then `<stem>02.png`. */
  lemma TwoRuns(name: string, outDir: string)
    ensures IncrementFilename(name, outDir, [], 1) == outDir + "/" + Stem(name) + "01.png"
    ensures IncrementFilename(name, outDir, [Stem(name) + "01.png"], 1) == outDir + "/" + Stem(name) + "02.png"
  {
    SecondIsFirstFree(Stem(name));
    FirstCandidates(Stem(name));
    ChosenIsFirstFree(name, outDir, [], 1, 1);
    ChosenIsFirstFree(name, outDir, [Candidate(Stem(name), 1)], 1, 2);
  }
}
