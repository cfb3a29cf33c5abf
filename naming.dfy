/** The output base name of an analyte file, Station-locations.py line 62:
    `re.sub(r'[^\w]+', '-', name.replace('.csv', '')).strip('-').lower()`,
    and the two output names built from it (lines 63 and 80). */
module Naming {
  import opened Text
  import opened Seqs

  /** `name.replace('.csv', '')`: one left-to-right pass that deletes every
      non-overlapping occurrence of `.csv` it meets. */
  function RemoveCsv(s: string): (r: string)
    ensures |r| <= |s|
    decreases |s|
  {
    if |s| >= 4 && s[..4] == ".csv" then RemoveCsv(s[4..])
    else if s == [] then []
    else [s[0]] + RemoveCsv(s[1..])
  }

  predicate IsNonWordChar(c: char)
  {
    !IsWordChar(c)
  }

  predicate IsDash(c: char)
  {
    c == '-'
  }

  /** No character outside `\w` and `-`, and no two dashes in a row. */
  ghost predicate Separated(s: string)
  {
    && (forall i :: 0 <= i < |s| ==> IsWordChar(s[i]) || s[i] == '-')
    && (forall i :: 0 <= i < |s| - 1 && s[i] == '-' ==> s[i + 1] != '-')
  }

  /** What a slug looks like: lower-case word characters separated by single
      dashes, with no dash at either end. */
  ghost predicate SlugShaped(s: string)
  {
    && Separated(s)
    && (forall i :: 0 <= i < |s| ==> !IsUpper(s[i]))
    && (s == [] || (s[0] != '-' && s[|s| - 1] != '-'))
  }

  /** `re.sub(r'[^\w]+', '-', s)`: every maximal run of characters outside `\w`
      becomes a single dash; word characters are copied. */
  function CollapseNonWord(s: string): (r: string)
    ensures Separated(r)
    ensures s != [] && IsWordChar(s[0]) ==> r != [] && r[0] == s[0]
    decreases |s|
  {
    if s == [] then []
    else if IsWordChar(s[0]) then [s[0]] + CollapseNonWord(s[1..])
    else
      var rest := TrimStart(s, IsNonWordChar);
      assert |rest| < |s|;
      "-" + CollapseNonWord(rest)
  }

  /** The slug of an analyte file name. */
  function Slug(fileName: string): (r: string)
    ensures SlugShaped(r)
  {
    var collapsed := CollapseNonWord(RemoveCsv(fileName));
    var stripped := Strip(collapsed, IsDash);
    StripKeepsSeparated(collapsed);
    LowerKeepsShape(stripped);
    ToLower(stripped)
  }

  /** A slice of a separated string is separated, so stripping its end dashes
      leaves a separated string without dashes at either end. */
  lemma StripKeepsSeparated(s: string)
    requires Separated(s)
    ensures Separated(Strip(s, IsDash))
  {
    var r := Strip(s, IsDash);
    var lo, hi :| Trims(s, IsDash, lo, hi) && r == s[lo..hi];
    assert forall i :: 0 <= i < |r| ==> r[i] == s[lo + i];
  }

  /** Lower-casing a separated string without end dashes gives a slug. */
  lemma LowerKeepsShape(s: string)
    requires Separated(s) && (s == [] || (s[0] != '-' && s[|s| - 1] != '-'))
    ensures SlugShaped(ToLower(s))
  {
    var r := ToLower(s);
    assert forall i :: 0 <= i < |s| ==> (r[i] == '-' <==> s[i] == '-');
  }

  function BaseName(slug: string): string
  {
    slug + "-stations"
  }

  /** The name of the CSV written for a file with this slug (line 63). */
  function CsvName(slug: string): (r: string)
    ensures r == BaseName(slug) + ".csv"
  {
    slug + "-stations.csv"
  }

  /** The name of the shapefile written for a file with this slug (line 80). */
  function ShpName(slug: string): (r: string)
    ensures r == BaseName(slug) + ".shp"
  {
    slug + "-stations.shp"
  }

  /** The word characters of a string, in order. */
  function Words(s: string): string
  {
    Filter(s, IsWordChar)
  }

  /** Removing the `.csv` extension: whatever precedes it is processed as if the
      extension were not there, since `.csv` cannot overlap its own start. */
  lemma {:induction false} RemoveCsvDropsExtension(t: string)
    ensures RemoveCsv(t + ".csv") == RemoveCsv(t)
    decreases |t|
  {
    var s := t + ".csv";
    if |t| >= 4 && t[..4] == ".csv" {
      assert s[..4] == ".csv" && s[4..] == t[4..] + ".csv";
      RemoveCsvDropsExtension(t[4..]);
    } else if t == [] {
      assert s[4..] == [];
    } else {
      assert s[..4] != ".csv" by {
        if |t| >= 4 {
          assert s[..4] == t[..4];
        } else {
          assert s[|t|] == '.';
        }
      }
      assert s[1..] == t[1..] + ".csv";
      RemoveCsvDropsExtension(t[1..]);
    }
  }

  /** Every occurrence of `.csv` the pass meets is deleted, wherever it stands:
      the text on each side is processed as if the other were not there. No
      proper prefix of `.csv` is also a suffix of it, so no occurrence can start
      in `a` and run into the deleted one. */
  lemma {:induction false} RemoveCsvDeletesOccurrence(a: string, ext: string, b: string)
    requires ext == ".csv"
    ensures RemoveCsv(a + ext + b) == RemoveCsv(a) + RemoveCsv(b)
    decreases |a|
  {
    if |a| >= 4 && a[..4] == ext {
      CsvAtFront(a, ext, b);
      RemoveCsvDeletesOccurrence(a[4..], ext, b);
    } else if a == [] {
      assert a + ext + b == ext + b;
      assert (ext + b)[..4] == ext && (ext + b)[4..] == b;
    } else {
      NoCsvAcrossFront(a, ext, b);
      RemoveCsvDeletesOccurrence(a[1..], ext, b);
    }
  }

  /** An occurrence at the front of `a` is deleted with or without what follows `a`. */
  lemma CsvAtFront(a: string, ext: string, b: string)
    requires ext == ".csv" && |a| >= 4 && a[..4] == ext
    ensures RemoveCsv(a + ext + b) == RemoveCsv(a[4..] + ext + b)
    ensures RemoveCsv(a) == RemoveCsv(a[4..])
  {
    var s := a + ext + b;
    assert s[..4] == ext && s[4..] == a[4..] + ext + b;
  }

  /** A `.csv` cannot start inside a short prefix and run into a `.csv` after
      it, so the pass copies the first character of `a` on either side. */
  lemma NoCsvAcrossFront(a: string, ext: string, b: string)
    requires ext == ".csv" && a != [] && !(|a| >= 4 && a[..4] == ext)
    ensures RemoveCsv(a + ext + b) == [a[0]] + RemoveCsv(a[1..] + ext + b)
    ensures RemoveCsv(a) == [a[0]] + RemoveCsv(a[1..])
  {
    var s := a + ext + b;
    assert s[..4] != ext by {
      if |a| >= 4 {
        assert s[..4] == a[..4];
      } else {
        assert s[|a|] == '.' && ext[|a|] != '.';
      }
    }
    assert s[1..] == a[1..] + ext + b;
  }

  /** An occurrence of `.csv` starts at index `i` of `s`. */
  ghost predicate CsvAt(s: string, i: int)
  {
    0 <= i && i + 4 <= |s| && s[i..i + 4] == ".csv"
  }

  /** No `.csv` starts anywhere in `s`. */
  ghost predicate HasNoCsv(s: string)
  {
    forall i :: !CsvAt(s, i)
  }

  /** A name without an occurrence of `.csv` is left alone by its removal. */
  lemma {:induction false} RemoveCsvWithoutCsv(s: string)
    requires HasNoCsv(s)
    ensures RemoveCsv(s) == s
    decreases |s|
  {
    if s != [] {
      if |s| >= 4 {
        assert !CsvAt(s, 0);
      }
      assert HasNoCsv(s[1..]) by {
        forall i ensures !CsvAt(s[1..], i) {
          assert !CsvAt(s, i + 1);
          if 0 <= i && i + 4 <= |s[1..]| {
            assert s[1..][i..i + 4] == s[i + 1..i + 1 + 4];
          }
        }
      }
      RemoveCsvWithoutCsv(s[1..]);
    }
  }

  /** The removal is a single pass: deleting an inner `.csv` can join the
      characters around it into a new `.csv`, which stays. */
  lemma RemoveCsvSinglePass(s: string)
    requires s == ".c.csvsv"
    ensures RemoveCsv(s) == ".csv"
  {
    var t := s[1..];
    var u := t[1..];
    var v := u[4..];
    assert s[2] == '.' && t[0] == 'c';
    assert RemoveCsv(s) == [s[0]] + RemoveCsv(t) by {
      assert s[..4][2] != ".csv"[2];
    }
    assert RemoveCsv(t) == [t[0]] + RemoveCsv(u) by {
      assert t[..4][0] != ".csv"[0];
    }
    assert u[..4] == ".csv" && v == "sv";
    assert RemoveCsv(v) == v by {
      RemoveCsvWithoutCsv(v);
    }
  }

  /** The word characters of a string with one more character in front. */
  lemma WordsCons(c: char, t: string)
    ensures Words([c] + t) == (if IsWordChar(c) then [c] else []) + Words(t)
  {
    FilterConcat([c], t, IsWordChar);
    assert [c][..0] == [];
  }

  /** A run of characters outside `\w` in front adds no word character. */
  lemma WordsAfterRun(run: string, rest: string)
    requires NoWordChars(run)
    ensures Words(run + rest) == Words(rest)
  {
    FilterConcat(run, rest, IsWordChar);
    FilterNone(run, IsWordChar);
  }

  /** Collapsing keeps every word character, in order, and adds only dashes. */
  lemma {:induction false} CollapseKeepsWords(s: string)
    ensures Words(CollapseNonWord(s)) == Words(s)
    decreases |s|
  {
    if s != [] {
      if IsWordChar(s[0]) {
        assert s == [s[0]] + s[1..];
        CollapseKeepsWords(s[1..]);
        WordsCons(s[0], s[1..]);
        WordsCons(s[0], CollapseNonWord(s[1..]));
      } else {
        var rest := TrimStart(s, IsNonWordChar);
        var run := s[..|s| - |rest|];
        assert s == run + rest;
        assert NoWordChars(run) by {
          assert forall i :: 0 <= i < |run| ==> run[i] == s[i];
        }
        WordsAfterRun(run, rest);
        CollapseKeepsWords(rest);
        WordsCons('-', CollapseNonWord(rest));
      }
    }
  }

  /** A separated string is its own collapse: each dash is already a run of one. */
  lemma {:induction false} CollapseSeparated(s: string)
    requires Separated(s)
    ensures CollapseNonWord(s) == s
    decreases |s|
  {
    if s != [] {
      assert Separated(s[1..]);
      CollapseSeparated(s[1..]);
      if !IsWordChar(s[0]) {
        assert TrimStart(s, IsNonWordChar) == s[1..];
      }
    }
  }

  /** Every string of slug shape is its own slug. */
  lemma SlugFixesSlugs(t: string)
    requires SlugShaped(t)
    ensures Slug(t) == t
  {
    NoDotHasNoCsv(t);
    RemoveCsvWithoutCsv(t);
    CollapseSeparated(t);
    StripUnchanged(t, IsDash);
    assert ToLower(t) == t;
  }

  /** Slugging a slug changes nothing. */
  lemma SlugIdempotent(fileName: string)
    ensures Slug(Slug(fileName)) == Slug(fileName)
  {
    SlugFixesSlugs(Slug(fileName));
  }

  /** The slug keeps the letters, digits and underscores of the name with its
      `.csv` removed, in order and lower-cased; everything else became dashes. */
  lemma SlugKeepsWords(fileName: string)
    ensures Words(Slug(fileName)) == ToLower(Words(RemoveCsv(fileName)))
  {
    var collapsed := CollapseNonWord(RemoveCsv(fileName));
    CollapseKeepsWords(RemoveCsv(fileName));
    StripDashesKeepsWords(collapsed);
    LowerCommutesWithWords(Strip(collapsed, IsDash));
  }

  /** Characters outside `\w` around a string add no word character. */
  lemma WordsOfPadded(before: string, core: string, after: string)
    requires NoWordChars(before) && NoWordChars(after)
    ensures Words(before + core + after) == Words(core)
  {
    FilterConcat(before + core, after, IsWordChar);
    FilterConcat(before, core, IsWordChar);
    FilterNone(before, IsWordChar);
    FilterNone(after, IsWordChar);
  }

  /** Stripping dashes loses no word character. */
  lemma StripDashesKeepsWords(s: string)
    ensures Words(Strip(s, IsDash)) == Words(s)
  {
    var before, after := StripSplit(s, IsDash);
    WordsOfPadded(before, Strip(s, IsDash), after);
  }

  /** Lower-casing and picking word characters can be done in either order. */
  lemma {:induction false} LowerCommutesWithWords(s: string)
    ensures Words(ToLower(s)) == ToLower(Words(s))
    decreases |s|
  {
    if s != [] {
      var init := s[..|s| - 1];
      LowerCommutesWithWords(init);
      assert ToLower(s)[..|s| - 1] == ToLower(init);
      var w := Words(init);
      if IsWordChar(s[|s| - 1]) {
        assert ToLower(w + [s[|s| - 1]]) == ToLower(w) + [ToLowerChar(s[|s| - 1])];
      }
    }
  }

  /** A leading run of word characters is copied unchanged. */
  lemma {:induction false} CollapseWordPrefix(word: string, rest: string)
    requires AllWordChars(word)
    ensures CollapseNonWord(word + rest) == word + CollapseNonWord(rest)
    decreases |word|
  {
    if word == [] {
      assert word + rest == rest;
    } else {
      assert (word + rest)[0] == word[0] && (word + rest)[1..] == word[1..] + rest;
      CollapseWordPrefix(word[1..], rest);
      assert word == [word[0]] + word[1..];
    }
  }

  /** A run of non-word characters followed by a word character (or by nothing)
      becomes a single dash. */
  lemma CollapseRun(run: string, rest: string)
    requires run != [] && NoWordChars(run)
    requires rest == [] || IsWordChar(rest[0])
    ensures CollapseNonWord(run + rest) == "-" + CollapseNonWord(rest)
  {
    var s := run + rest;
    assert s[0] == run[0];
    TrimStartRun(run, rest, IsNonWordChar);
  }

  /** A word, a run of non-word characters and what follows: the run becomes one dash. */
  lemma CollapseWordRun(word: string, run: string, rest: string)
    requires AllWordChars(word)
    requires run != [] && NoWordChars(run)
    requires rest == [] || IsWordChar(rest[0])
    ensures CollapseNonWord(word + run + rest) == word + "-" + CollapseNonWord(rest)
  {
    assert word + run + rest == word + (run + rest);
    CollapseWordPrefix(word, run + rest);
    CollapseRun(run, rest);
  }

  /** A string of word characters is its own collapse. */
  lemma CollapseWord(word: string)
    requires AllWordChars(word)
    ensures CollapseNonWord(word) == word
  {
    assert word == word + [];
    CollapseWordPrefix(word, []);
  }

  /** Without a dot there is no `.csv`. */
  lemma NoDotHasNoCsv(s: string)
    requires forall i :: 0 <= i < |s| ==> s[i] != '.'
    ensures HasNoCsv(s)
  {
    forall i ensures !CsvAt(s, i) {
      if 0 <= i && i + 4 <= |s| {
        assert s[i..i + 4][0] == s[i];
      }
    }
  }

  /** The slug of `<stem>.csv`, once the stem is known to hold no `.csv` and its
      collapse has no dash at either end. */
  lemma SlugOfStem(name: string, stem: string, dashed: string)
    requires name == stem + ".csv" && HasNoCsv(stem)
    requires CollapseNonWord(stem) == dashed
    requires dashed == [] || (dashed[0] != '-' && dashed[|dashed| - 1] != '-')
    ensures Slug(name) == ToLower(dashed)
  {
    RemoveCsvDropsExtension(stem);
    RemoveCsvWithoutCsv(stem);
    StripUnchanged(dashed, IsDash);
  }

  /** The words interleaved with the separators: `words[0] + seps[0] + words[1] + ...`. */
  function Joined(words: seq<string>, seps: seq<string>): string
    requires |words| == |seps| + 1
    decreases |seps|
  {
    if seps == [] then words[0] else words[0] + seps[0] + Joined(words[1..], seps[1..])
  }

  /** Non-empty words of word characters separated by non-empty runs of other
      characters. */
  ghost predicate WordsAndRuns(words: seq<string>, seps: seq<string>)
  {
    && |words| == |seps| + 1
    && (forall k :: 0 <= k < |words| ==> words[k] != [] && AllWordChars(words[k]))
    && (forall k :: 0 <= k < |seps| ==> seps[k] != [] && NoWordChars(seps[k]))
  }

  ghost predicate AllWordChars(s: string)
  {
    forall i :: 0 <= i < |s| ==> IsWordChar(s[i])
  }

  ghost predicate NoWordChars(s: string)
  {
    forall i :: 0 <= i < |s| ==> !IsWordChar(s[i])
  }

  /** Every separator run becomes a single dash between the words. */
  lemma {:induction false} CollapseJoined(words: seq<string>, seps: seq<string>)
    requires WordsAndRuns(words, seps)
    ensures CollapseNonWord(Joined(words, seps)) == Joined(words, seq(|seps|, _ => "-"))
    decreases |seps|
  {
    var dashes := seq(|seps|, _ => "-");
    if seps == [] {
      CollapseWord(words[0]);
    } else {
      assert WordsAndRuns(words[1..], seps[1..]);
      CollapseJoined(words[1..], seps[1..]);
      var rest := Joined(words[1..], seps[1..]);
      assert rest[..|words[1]|] == words[1] by {
        JoinedStartsWithFirstWord(words[1..], seps[1..]);
      }
      CollapseWordRun(words[0], seps[0], rest);
      assert dashes[1..] == seq(|seps| - 1, _ => "-");
    }
  }

  lemma {:induction false} JoinedStartsWithFirstWord(words: seq<string>, seps: seq<string>)
    requires |words| == |seps| + 1
    ensures |words[0]| <= |Joined(words, seps)| && Joined(words, seps)[..|words[0]|] == words[0]
  {
  }

  lemma EColiParts(stem: string, words: seq<string>, seps: seq<string>, dashed: string)
    requires stem == "E. coli" && dashed == "E-coli"
    requires words == [stem[..1], stem[3..]] && seps == [stem[1..3]]
    ensures WordsAndRuns(words, seps) && stem == Joined(words, seps)
    ensures Joined(words, seq(|seps|, _ => "-")) == dashed
    ensures HasNoCsv(stem)
    ensures ToLower(dashed) == "e-coli"
  {
    forall i ensures !CsvAt(stem, i) {
      if 0 <= i && i + 4 <= |stem| {
        assert stem[i..i + 4][0] == stem[i] != '.' || stem[i..i + 4][1] == stem[i + 1] != 'c';
      }
    }
  }

  /** "E. coli.csv" gives "e-coli": the dot and the space form one run. */
  lemma SlugExampleEColi(name: string)
    requires name == "E. coli.csv"
    ensures Slug(name) == "e-coli"
  {
    var stem := name[..7];
    var words, seps, dashed := [stem[..1], stem[3..]], [stem[1..3]], name[..1] + "-" + name[3..7];
    EColiParts(stem, words, seps, dashed);
    CollapseJoined(words, seps);
    SlugOfStem(name, stem, dashed);
  }

  /** Four words and three separators, written out. */
  lemma JoinedFour(words: seq<string>, seps: seq<string>)
    requires |words| == 4 && |seps| == 3
    ensures Joined(words, seps) == words[0] + seps[0] + (words[1] + seps[1] + (words[2] + seps[2] + words[3]))
  {
    var w1, s1 := words[1..], seps[1..];
    var w2, s2 := w1[1..], s1[1..];
    var w3, s3 := w2[1..], s2[1..];
    assert s3 == [] && w3[0] == words[3];
    assert Joined(w2, s2) == words[2] + seps[2] + words[3];
    assert Joined(w1, s1) == words[1] + seps[1] + Joined(w2, s2);
  }

  lemma SolidsStem(name: string, stem: string, words: seq<string>, seps: seq<string>)
    requires name == "Total Suspended Solids, Total.csv" && stem == "Total Suspended Solids, Total"
    requires words == ["Total", "Suspended", "Solids", "Total"] && seps == [" ", " ", ", "]
    ensures name == stem + ".csv"
    ensures stem == words[0] + seps[0] + (words[1] + seps[1] + (words[2] + seps[2] + words[3]))
  {
  }

  lemma SolidsDashed(words: seq<string>, dashes: seq<string>, dashed: string)
    requires words == ["Total", "Suspended", "Solids", "Total"] && dashes == ["-", "-", "-"]
    requires dashed == "Total-Suspended-Solids-Total"
    ensures dashed == words[0] + dashes[0] + (words[1] + dashes[1] + (words[2] + dashes[2] + words[3]))
  {
  }

  lemma SolidsLower(dashed: string)
    requires dashed == "Total-Suspended-Solids-Total"
    ensures ToLower(dashed) == "total-suspended-solids-total"
  {
    assert |ToLower(dashed)| == 28;
  }

  lemma SolidsWords(stem: string, words: seq<string>, seps: seq<string>)
    requires stem == "Total Suspended Solids, Total"
    requires words == ["Total", "Suspended", "Solids", "Total"] && seps == [" ", " ", ", "]
    ensures WordsAndRuns(words, seps) && HasNoCsv(stem)
  {
    assert AllWordChars(words[0]) && AllWordChars(words[1]) && AllWordChars(words[2]);
    assert NoWordChars(seps[0]) && NoWordChars(seps[2]);
    NoDotHasNoCsv(stem);
  }

  /** The pieces of "Total Suspended Solids, Total.csv": its stem, the words
      and runs of the stem, and the stem with each run replaced by a dash. */
  lemma SolidsParts(name: string) returns (stem: string, words: seq<string>, seps: seq<string>, dashed: string)
    requires name == "Total Suspended Solids, Total.csv"
    ensures name == stem + ".csv" && HasNoCsv(stem)
    ensures WordsAndRuns(words, seps) && stem == Joined(words, seps)
    ensures Joined(words, seq(|seps|, _ => "-")) == dashed
    ensures dashed != [] && dashed[0] != '-' && dashed[|dashed| - 1] != '-'
    ensures ToLower(dashed) == "total-suspended-solids-total"
  {
    stem, dashed := "Total Suspended Solids, Total", "Total-Suspended-Solids-Total";
    words, seps := ["Total", "Suspended", "Solids", "Total"], [" ", " ", ", "];
    var dashes := seq(|seps|, _ => "-");
    assert dashes == ["-", "-", "-"];
    SolidsStem(name, stem, words, seps);
    SolidsWords(stem, words, seps);
    SolidsDashed(words, dashes, dashed);
    assert dashed[0] == 'T' && dashed[27] == 'l';
    SolidsLower(dashed);
    JoinedFour(words, seps);
    JoinedFour(words, dashes);
  }

  /** "Total Suspended Solids, Total.csv" gives "total-suspended-solids-total":
      the comma and the space form one run. */
  lemma SlugExampleSolids(name: string)
    requires name == "Total Suspended Solids, Total.csv"
    ensures Slug(name) == "total-suspended-solids-total"
  {
    var stem, words, seps, dashed := SolidsParts(name);
    CollapseJoined(words, seps);
    SlugOfStem(name, stem, dashed);
  }

  /** "X.csv" gives "x". */
  lemma SlugExampleX(name: string)
    requires name == "X.csv"
    ensures Slug(name) == "x"
  {
    var stem := name[..1];
    assert name == stem + ".csv";
    NoDotHasNoCsv(stem);
    CollapseWord(stem);
    SlugOfStem(name, stem, stem);
    LowerX(stem);
  }

  /** `"X".lower()` is `"x"`. */
  lemma LowerX(s: string)
    requires s == "X"
    ensures ToLower(s) == "x"
  {
    assert ToLower(s)[0] == 'x';
  }

  /** The slug "x" names "x-stations.csv" and "x-stations.shp". */
  lemma OutputNamesExampleX(slug: string)
    requires slug == "x"
    ensures CsvName(slug) == "x-stations.csv" && ShpName(slug) == "x-stations.shp"
  {
  }

  /** The CSV and the shapefile of one file share their base name and differ in
      the extension, so they never coincide; the base determines the slug. */
  lemma OutputNamesPair(slug: string, other: string)
    ensures CsvName(slug)[..|CsvName(slug)| - 4] == ShpName(slug)[..|ShpName(slug)| - 4] == BaseName(slug)
    ensures CsvName(slug) != ShpName(other)
    ensures CsvName(slug) == CsvName(other) <==> slug == other
  {
    if CsvName(slug) == CsvName(other) {
      assert slug == CsvName(slug)[..|slug|];
    }
  }

}
