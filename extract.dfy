/**
  What the script pulls out of the two server pages once the HTML elements
  have been selected: the submitted homeworks (label texts paired with link
  targets) and the assignments open for submission (option texts cut into a
  title and a due date, with the lateness of that due date).
*/
module Extract {
  import opened Wrappers
  import opened PyStr
  import opened Dates

  // ---------------------------------------------------------------------
  // Dictionaries filled in order, and sorted(d.items())
  // ---------------------------------------------------------------------

  /**
    The dictionary left by assigning `d[keys[i]] = values[i]` for each `i` in
    order: a key that comes again later takes the later value.
  */
  function ZipMap(keys: seq<string>, values: seq<string>): (m: map<string, string>)
    requires |keys| <= |values|
    ensures forall k :: k in m <==> k in keys
    ensures |m| <= |keys|
  {
    if |keys| == 0 then map[]
    else ZipMap(keys[..|keys| - 1], values)[keys[|keys| - 1] := values[|keys| - 1]]
  }

  /** Only the values up to the number of keys matter. */
  lemma {:induction false} ZipMapLonger(keys: seq<string>, values: seq<string>, more: seq<string>)
    requires |keys| <= |values|
    ensures ZipMap(keys, values + more) == ZipMap(keys, values)
  {
    if |keys| > 0 {
      ZipMapLonger(keys[..|keys| - 1], values, more);
      assert (values + more)[|keys| - 1] == values[|keys| - 1];
    }
  }

  /** Assigning one more key and value, as one turn of a filling loop does. */
  lemma ZipMapStep(keys: seq<string>, n: int, values: seq<string>, v: string)
    requires 0 <= n < |keys| && |values| == n
    ensures ZipMap(keys[..n + 1], values + [v]) == ZipMap(keys[..n], values)[keys[n] := v]
  {
    ZipMapLonger(keys[..n], values, [v]);
    assert keys[..n + 1][..n] == keys[..n];
  }

  /** One more key against the same values, as one turn of a filling loop assigns. */
  lemma ZipMapPrefix(keys: seq<string>, n: int, values: seq<string>)
    requires 0 <= n < |keys| <= |values|
    ensures ZipMap(keys[..n + 1], values) == ZipMap(keys[..n], values)[keys[n] := values[n]]
  {
    assert keys[..n + 1][..n] == keys[..n];
  }

  /** Position `i` holds the last occurrence of its key. */
  predicate LastOccurrence(keys: seq<string>, i: int)
    requires 0 <= i < |keys|
  {
    forall j :: i < j < |keys| ==> keys[j] != keys[i]
  }

  /** A key takes the value stored at its last occurrence. */
  lemma {:induction false} ZipMapLastWins(keys: seq<string>, values: seq<string>, i: int)
    requires |keys| <= |values|
    requires 0 <= i < |keys| && LastOccurrence(keys, i)
    ensures ZipMap(keys, values)[keys[i]] == values[i]
  {
    var n := |keys| - 1;
    if i < n {
      var front := keys[..n];
      assert front[i] == keys[i];
      assert LastOccurrence(front, i) by {
        forall j | i < j < |front| ensures front[j] != front[i] {
          assert front[j] == keys[j];
        }
      }
      ZipMapLastWins(front, values, i);
    }
  }

  /** The list `sorted(d.items())` gives: ascending by key, each key of `d` once, with its value. */
  predicate SortedItems(s: seq<(string, string)>, m: map<string, string>)
  {
    && (forall i, j :: 0 <= i < j < |s| ==> Less(s[i].0, s[j].0))
    && (forall i :: 0 <= i < |s| ==> s[i].0 in m && m[s[i].0] == s[i].1)
    && (forall k :: k in m ==> exists i :: 0 <= i < |s| && s[i].0 == k)
  }

  /** A sorted item list is empty exactly when its dictionary is. */
  lemma SortedItemsEmpty(s: seq<(string, string)>, m: map<string, string>)
    requires SortedItems(s, m)
    ensures |s| == 0 <==> m == map[]
  {
    if |s| > 0 {
      assert s[0].0 in m;
    }
    if m != map[] {
      var k :| k in m;
      var i :| 0 <= i < |s| && s[i].0 == k;
    }
  }

  /** A dictionary has only one sorted item list, so `SortedItems` pins the result down completely. */
  lemma {:induction false} SortedItemsUnique(s: seq<(string, string)>, t: seq<(string, string)>, m: map<string, string>)
    requires SortedItems(s, m) && SortedItems(t, m)
    ensures s == t
    decreases |s|
  {
    assert |s| == 0 <==> |t| == 0 by {
      SortedItemsEmpty(s, m);
      SortedItemsEmpty(t, m);
    }
    if |s| > 0 {
      assert s[0] == t[0] by {
        SortedHeads(s, t, m);
      }
      assert s[1..] == t[1..] by {
        SortedTail(s, m);
        SortedTail(t, m);
        SortedItemsUnique(s[1..], t[1..], m - {s[0].0});
      }
      assert s == [s[0]] + s[1..] && t == [t[0]] + t[1..];
    }
  }

  /** Two sorted item lists of one dictionary start with the same item. */
  lemma SortedHeads(s: seq<(string, string)>, t: seq<(string, string)>, m: map<string, string>)
    requires |s| > 0 && |t| > 0 && SortedItems(s, m) && SortedItems(t, m)
    ensures s[0] == t[0]
  {
    var a, b := s[0].0, t[0].0;
    var i :| 0 <= i < |s| && s[i].0 == b;
    var j :| 0 <= j < |t| && t[j].0 == a;
    if a != b {
      assert i > 0 && j > 0;
      LessAsymmetric(a, b);
    }
  }

  /** Removing the first item leaves the sorted items of the dictionary without its smallest key. */
  lemma SortedTail(s: seq<(string, string)>, m: map<string, string>)
    requires |s| > 0 && SortedItems(s, m)
    ensures SortedItems(s[1..], m - {s[0].0})
  {
    var a := s[0].0;
    var m' := m - {a};
    var r := s[1..];
    forall i | 0 <= i < |r|
      ensures r[i].0 in m' && m'[r[i].0] == r[i].1
    {
      assert r[i] == s[i + 1];
      LessIrreflexive(a);
    }
    forall k | k in m'
      ensures exists i :: 0 <= i < |r| && r[i].0 == k
    {
      var i :| 0 <= i < |s| && s[i].0 == k;
      assert r[i - 1] == s[i];
    }
    forall i, j | 0 <= i < j < |r|
      ensures Less(r[i].0, r[j].0)
    {
      assert r[i] == s[i + 1] && r[j] == s[j + 1];
    }
  }

  /** The sorting loop's invariant: `s` holds, in order, exactly the keys of `m` that are no longer in `rest`. */
  predicate Placed(s: seq<(string, string)>, m: map<string, string>, rest: set<string>)
  {
    && (forall i, j :: 0 <= i < j < |s| ==> Less(s[i].0, s[j].0))
    && (forall i :: 0 <= i < |s| ==> s[i].0 in m && s[i].0 !in rest && m[s[i].0] == s[i].1)
    && (forall k :: k in m && k !in rest ==> exists i :: 0 <= i < |s| && s[i].0 == k)
  }

  /** `sorted(d.items())`: each key is placed among the keys placed so far. */
  method SortItems(m: map<string, string>) returns (s: seq<(string, string)>)
    ensures SortedItems(s, m)
  {
    s := [];
    var rest := m.Keys;
    while rest != {}
      invariant rest <= m.Keys
      invariant Placed(s, m, rest)
      decreases rest
    {
      var k :| k in rest;
      var p := 0;
      while p < |s| && Less(s[p].0, k)
        invariant 0 <= p <= |s|
        invariant forall i :: 0 <= i < p ==> Less(s[i].0, k)
      {
        p := p + 1;
      }
      Greater(s, p, k);
      PlaceStep(s, m, rest, p, k);
      s := Insert(s, p, (k, m[k]));
      rest := rest - {k};
    }
  }

  /** Putting the next key where the scan stopped keeps the loop's invariant. */
  lemma PlaceStep(s: seq<(string, string)>, m: map<string, string>, rest: set<string>, p: int, k: string)
    requires Placed(s, m, rest) && rest <= m.Keys && k in rest
    requires 0 <= p <= |s|
    requires forall i :: 0 <= i < p ==> Less(s[i].0, k)
    requires forall i :: p <= i < |s| ==> Less(k, s[i].0)
    ensures Placed(Insert(s, p, (k, m[k])), m, rest - {k})
  {
    var s' := Insert(s, p, (k, m[k]));
    PlaceOrdered(s, p, k, m[k]);
    PlaceCovers(s, m, rest, p, k);
    forall i | 0 <= i < |s'|
      ensures s'[i].0 in m && s'[i].0 !in rest - {k} && m[s'[i].0] == s'[i].1
    {
      if i < p {
        assert s'[i] == s[i];
      } else if i > p {
        assert s'[i] == s[i - 1];
      }
    }
  }

  lemma PlaceOrdered(s: seq<(string, string)>, p: int, k: string, v: string)
    requires 0 <= p <= |s|
    requires forall i, j :: 0 <= i < j < |s| ==> Less(s[i].0, s[j].0)
    requires forall i :: 0 <= i < p ==> Less(s[i].0, k)
    requires forall i :: p <= i < |s| ==> Less(k, s[i].0)
    ensures forall i, j :: 0 <= i < j < |s| + 1 ==> Less(Insert(s, p, (k, v))[i].0, Insert(s, p, (k, v))[j].0)
  {
    var s' := Insert(s, p, (k, v));
    forall i, j | 0 <= i < j < |s'|
      ensures Less(s'[i].0, s'[j].0)
    {
      if i < p && j > p {
        LessTransitive(s[i].0, k, s[j - 1].0);
      }
    }
  }

  lemma PlaceCovers(s: seq<(string, string)>, m: map<string, string>, rest: set<string>, p: int, k: string)
    requires k in m && 0 <= p <= |s|
    requires forall k' :: k' in m && k' !in rest ==> exists i :: 0 <= i < |s| && s[i].0 == k'
    ensures forall k' :: k' in m && k' !in rest - {k} ==>
      exists i :: 0 <= i < |s| + 1 && Insert(s, p, (k, m[k]))[i].0 == k'
  {
    var s' := Insert(s, p, (k, m[k]));
    forall k' | k' in m && k' !in rest - {k}
      ensures exists i :: 0 <= i < |s'| && s'[i].0 == k'
    {
      if k' == k {
        assert s'[p].0 == k';
      } else {
        var i :| 0 <= i < |s| && s[i].0 == k';
        if i < p {
          assert s'[i].0 == k';
        } else {
          assert s'[i + 1].0 == k';
        }
      }
    }
  }

  /** Everything from position `p` on sorts after `k`, once the scan has stopped there. */
  lemma Greater(s: seq<(string, string)>, p: int, k: string)
    requires 0 <= p <= |s|
    requires forall i, j :: 0 <= i < j < |s| ==> Less(s[i].0, s[j].0)
    requires forall i :: 0 <= i < |s| ==> s[i].0 != k
    requires p < |s| ==> !Less(s[p].0, k)
    ensures forall i :: p <= i < |s| ==> Less(k, s[i].0)
  {
    if p < |s| {
      LessTotal(s[p].0, k);
      forall i | p < i < |s|
        ensures Less(k, s[i].0)
      {
        LessTransitive(k, s[p].0, s[i].0);
      }
    }
  }

  /** `s` with `x` put in at position `p`. */
  function Insert(s: seq<(string, string)>, p: int, x: (string, string)): (r: seq<(string, string)>)
    requires 0 <= p <= |s|
    ensures |r| == |s| + 1 && r[p] == x
    ensures forall i :: 0 <= i < p ==> r[i] == s[i]
    ensures forall i :: p < i < |r| ==> r[i] == s[i - 1]
  {
    s[..p] + [x] + s[p..]
  }

  // ---------------------------------------------------------------------
  // parse_homeworks: labels paired with links
  // ---------------------------------------------------------------------

  /** Each label text with its non-ASCII characters dropped. */
  function AsciiLabels(texts: seq<string>): (labels: seq<string>)
    ensures |labels| == |texts|
  {
    if |texts| == 0 then [] else AsciiLabels(texts[..|texts| - 1]) + [AsciiOnly(texts[|texts| - 1])]
  }

  lemma {:induction false} AsciiLabelsAt(texts: seq<string>, i: int)
    requires 0 <= i < |texts|
    ensures AsciiLabels(texts)[i] == AsciiOnly(texts[i])
  {
    if i < |texts| - 1 {
      var front := texts[..|texts| - 1];
      AsciiLabelsAt(front, i);
      assert front[i] == texts[i];
    }
  }

  /** Labels that are plain ASCII already come through unchanged. */
  lemma AsciiLabelsOfAscii(texts: seq<string>)
    requires forall i :: 0 <= i < |texts| ==> IsAscii(texts[i])
    ensures AsciiLabels(texts) == texts
  {
    forall i | 0 <= i < |texts|
      ensures AsciiLabels(texts)[i] == texts[i]
    {
      AsciiLabelsAt(texts, i);
    }
  }

  /** One more label text, as one turn of the filtering loop adds. */
  lemma AsciiLabelsPrefix(texts: seq<string>, i: int)
    requires 0 <= i < |texts|
    ensures AsciiLabels(texts[..i + 1]) == AsciiLabels(texts[..i]) + [AsciiOnly(texts[i])]
  {
    assert texts[..i + 1][..i] == texts[..i];
  }

  /** The labels that survive: the ASCII labels with the excess over the links cut off the front. */
  function KeptLabels(texts: seq<string>, links: seq<string>): seq<string>
  {
    var labels := AsciiLabels(texts);
    if |labels| > |links| then labels[|labels| - |links|..] else labels
  }

  /** The dictionary `parse_homeworks` builds before sorting it. */
  function Homeworks(texts: seq<string>, links: seq<string>): map<string, string>
  {
    var kept := KeptLabels(texts, links);
    ZipMap(kept, links)
  }

  /**
    `parse_homeworks` on the texts of the selected labels and the targets of the
    selected links: its ordered dictionary, as a list of (label, link) items.
  */
  method ParseHomeworks(labelTexts: seq<string>, links: seq<string>) returns (homeworks: seq<(string, string)>)
    ensures SortedItems(homeworks, Homeworks(labelTexts, links))
  {
    var labels: seq<string> := [];
    for i := 0 to |labelTexts|
      invariant labels == AsciiLabels(labelTexts[..i])
    {
      AsciiLabelsPrefix(labelTexts, i);
      labels := labels + [AsciiOnly(labelTexts[i])];
    }
    assert labelTexts[..|labelTexts|] == labelTexts;
    ghost var all := labels;
    while |labels| > |links|
      invariant |labels| <= |all| && labels == all[|all| - |labels|..]
      invariant |all| > |links| ==> |labels| >= |links|
      invariant |all| <= |links| ==> labels == all
    {
      labels := labels[1..];
    }
    assert labels == KeptLabels(labelTexts, links);
    // After the loop above there are no more labels than links, so the
    // `except: break` around the assignment below never fires.
    var dict: map<string, string> := map[];
    for x := 0 to |labels|
      invariant dict == ZipMap(labels[..x], links)
    {
      ZipMapPrefix(labels, x, links);
      dict := dict[labels[x] := links[x]];
    }
    assert labels[..|labels|] == labels;
    homeworks := SortItems(dict);
  }

  /** No more labels are kept than there are links, and only the earliest labels are dropped. */
  lemma KeptLabelsShape(texts: seq<string>, links: seq<string>)
    ensures |KeptLabels(texts, links)| == if |texts| <= |links| then |texts| else |links|
    ensures KeptLabels(texts, links) == AsciiLabels(texts)[|texts| - |KeptLabels(texts, links)|..]
  {
  }

  /** Every key of the dictionary is plain ASCII, and there are at most as many keys as labels or links. */
  lemma HomeworksKeys(texts: seq<string>, links: seq<string>)
    ensures forall k :: k in Homeworks(texts, links) ==> IsAscii(k)
    ensures |Homeworks(texts, links)| <= |texts| && |Homeworks(texts, links)| <= |links|
  {
    var kept := KeptLabels(texts, links);
    KeptLabelsShape(texts, links);
    forall k | k in Homeworks(texts, links)
      ensures IsAscii(k)
    {
      var i :| 0 <= i < |kept| && kept[i] == k;
      AsciiLabelsAt(texts, |texts| - |kept| + i);
    }
  }

  /**
    The `i`-th surviving label is paired with the `i`-th link (counted from the
    front of both), unless the same label survives again further on.
  */
  lemma HomeworksPairing(texts: seq<string>, links: seq<string>, i: int)
    requires 0 <= i < |KeptLabels(texts, links)|
    requires LastOccurrence(KeptLabels(texts, links), i)
    ensures Homeworks(texts, links)[KeptLabels(texts, links)[i]] == links[i]
  {
    KeptLabelsShape(texts, links);
    ZipMapLastWins(KeptLabels(texts, links), links, i);
  }

  /** Three ASCII labels and two links: the first label is dropped and the other two take the links in order. */
  lemma HomeworksDropFirst(a: string, b: string, c: string, l1: string, l2: string)
    requires IsAscii(a) && IsAscii(b) && IsAscii(c) && b != c
    ensures Homeworks([a, b, c], [l1, l2]) == map[b := l1, c := l2]
  {
    var texts := [a, b, c];
    AsciiLabelsOfAscii(texts);
    assert KeptLabels(texts, [l1, l2]) == [b, c] by {
      assert texts[1..] == [b, c];
    }
    var keys := [b, c];
    assert ZipMap(keys, [l1, l2]) == ZipMap([b], [l1, l2])[c := l2] by {
      assert keys[..1] == [b];
    }
    assert ZipMap([b], [l1, l2]) == map[b := l1] by {
      assert [b][..0] == [];
    }
  }

  // ---------------------------------------------------------------------
  // parse_assignments: option texts cut into a title and a due date
  // ---------------------------------------------------------------------

  /** The bracket that opens the due date in an option text. */
  const Opening := " ("

  /** `text[:text.find(" (")]`: the text before the first " (", or all but the last character without one. */
  function Title(text: string): string
  {
    SliceTo(text, Find(text, Opening))
  }

  /** `text[text.find(" (") + 7:].strip(")")`: seven characters on from " (", with `)` cut off both ends. */
  function DueText(text: string): string
  {
    Strip(SliceFrom(text, Find(text, Opening) + 7), {')'})
  }

  /** The title never holds " (", and it is everything before the first " (" when there is one. */
  lemma TitleBeforeOpening(text: string)
    ensures !Contains(Title(text), Opening)
    ensures Contains(text, Opening) ==> text == Title(text) + text[|Title(text)|..]
    ensures Contains(text, Opening) ==> text[|Title(text)|..|Title(text)| + 2] == Opening
    ensures !Contains(text, Opening) ==> Title(text) == if |text| == 0 then "" else text[..|text| - 1]
  {
    var t := Title(text);
    assert t <= text;
    forall j | 0 <= j <= |t|
      ensures !OccursAt(t, Opening, j)
    {
      if j + 2 <= |t| {
        assert !OccursAt(text, Opening, j);
        assert text[j..j + 2] == t[j..j + 2];
      }
    }
  }

  /** Without " (", `find` gives -1 and the due date is read from position 6. */
  lemma DueTextWithoutOpening(text: string)
    requires !Contains(text, Opening)
    ensures DueText(text) == Strip(SliceFrom(text, 6), {')'})
  {
  }

  /** An option text spelled title, " (", a five-character tag and the due date cuts back into those parts. */
  lemma OptionParts(title: string, tag: string, due: string)
    requires !Contains(title, Opening)
    requires |tag| == 5
    ensures Title(title + Opening + tag + due) == title
    ensures DueText(title + Opening + tag + due) == Strip(due, {')'})
  {
    var text := title + Opening + tag + due;
    assert OccursAt(text, Opening, |title|) by {
      assert text[|title|..|title| + 2] == Opening;
    }
    forall i | 0 <= i < |title|
      ensures !OccursAt(text, Opening, i)
    {
      if i + 2 <= |title| {
        assert text[i..i + 2] == title[i..i + 2];
        assert !OccursAt(title, Opening, i);
      } else {
        assert text[i + 1] == ' ';
        assert text[i..i + 2][1] == text[i + 1];
      }
    }
    assert Find(text, Opening) == |title|;
    assert text[..|title|] == title;
    assert text[|title| + 7..] == due;
  }

  /** `is_late` at the instant `now`, as a function of the due date alone. */
  function Lateness(now: DateTime): string -> Result<string, PyError>
  {
    due => IsLate(due, now)
  }

  /** One option's value, `late` judging its due date: the due date, a space and the lateness. */
  function Entry(text: string, late: string -> Result<string, PyError>): Result<string, PyError>
  {
    var due := DueText(text);
    match late(due)
    case Err(e) => Err(e)
    case Ok(status) => Ok(due + " " + status)
  }

  /** `Entry` as a function of the option text alone. */
  function Entries(late: string -> Result<string, PyError>): string -> Result<string, PyError>
  {
    t => Entry(t, late)
  }

  /** What `Entry` gives, by the outcome of the lateness check. */
  lemma EntryCases(text: string, late: string -> Result<string, PyError>)
    ensures late(DueText(text)).Err? ==> Entries(late)(text) == Err(late(DueText(text)).error)
    ensures late(DueText(text)).Ok? ==> Entries(late)(text) == Ok(DueText(text) + " " + late(DueText(text)).value)
  {
  }

  /**
    The values of the options in order, `entry` giving each one's value, or
    the first exception on the way.
  */
  function Values(texts: seq<string>, entry: string -> Result<string, PyError>): (r: Result<seq<string>, PyError>)
    ensures r.Ok? ==> |r.value| == |texts|
  {
    if |texts| == 0 then Ok([])
    else
      var front := texts[..|texts| - 1];
      match Values(front, entry)
      case Err(e) => Err(e)
      case Ok(vs) =>
        match entry(texts[|texts| - 1])
        case Err(e) => Err(e)
        case Ok(v) => Ok(vs + [v])
  }

  /** The values succeed exactly when every option's value does. */
  lemma {:induction false} ValuesOk(texts: seq<string>, entry: string -> Result<string, PyError>)
    ensures Values(texts, entry).Ok? <==> forall i :: 0 <= i < |texts| ==> entry(texts[i]).Ok?
  {
    if |texts| > 0 {
      var front := texts[..|texts| - 1];
      ValuesOk(front, entry);
      assert forall i :: 0 <= i < |front| ==> front[i] == texts[i];
    }
  }

  /** The `i`-th value is the `i`-th option's value. */
  lemma {:induction false} ValuesAt(texts: seq<string>, entry: string -> Result<string, PyError>, i: int)
    requires Values(texts, entry).Ok? && 0 <= i < |texts|
    ensures entry(texts[i]).Ok? && Values(texts, entry).value[i] == entry(texts[i]).value
  {
    if i < |texts| - 1 {
      var front := texts[..|texts| - 1];
      ValuesAt(front, entry, i);
      assert front[i] == texts[i];
    }
  }

  /** One more option whose value succeeds: the value is appended. */
  lemma ValuesStep(texts: seq<string>, n: int, entry: string -> Result<string, PyError>, vs: seq<string>)
    requires 0 <= n < |texts|
    requires Values(texts[..n], entry) == Ok(vs) && entry(texts[n]).Ok?
    ensures Values(texts[..n + 1], entry) == Ok(vs + [entry(texts[n]).value])
  {
    assert texts[..n + 1][..n] == texts[..n];
  }

  /** The first option whose value fails decides the exception. */
  lemma {:induction false} ValuesFirstError(texts: seq<string>, n: int, entry: string -> Result<string, PyError>)
    requires 0 <= n < |texts|
    requires Values(texts[..n], entry).Ok? && entry(texts[n]).Err?
    ensures Values(texts, entry) == Err(entry(texts[n]).error)
  {
    var front := texts[..|texts| - 1];
    if n == |texts| - 1 {
      assert front == texts[..n];
    } else {
      assert front[..n] == texts[..n] && front[n] == texts[n];
      ValuesFirstError(front, n, entry);
    }
  }

  /** The titles of the options, in order. */
  function Titles(texts: seq<string>): (r: seq<string>)
    ensures |r| == |texts|
  {
    if |texts| == 0 then [] else Titles(texts[..|texts| - 1]) + [Title(texts[|texts| - 1])]
  }

  lemma {:induction false} TitlesAt(texts: seq<string>, i: int)
    requires 0 <= i < |texts|
    ensures Titles(texts)[i] == Title(texts[i])
  {
    if i < |texts| - 1 {
      var front := texts[..|texts| - 1];
      TitlesAt(front, i);
      assert front[i] == texts[i];
    }
  }

  predicate AllAscii(texts: seq<string>)
  {
    forall i :: 0 <= i < |texts| ==> IsAscii(texts[i])
  }

  /**
    The dictionary `parse_assignments` builds before sorting it: title to due
    date and lateness, or the exception that ends it (a non-ASCII option text
    fails `str()` before any date is looked at).
  */
  function Assignments(texts: seq<string>, now: DateTime): Result<map<string, string>, PyError>
  {
    if !AllAscii(texts) then Err(UnicodeEncodeError)
    else
      match Values(texts, Entries(Lateness(now)))
      case Err(e) => Err(e)
      case Ok(vs) => Ok(ZipMap(Titles(texts), vs))
  }

  /**
    `parse_assignments` on the texts of the selected options, with every
    `is_late` call made at the instant `now`: the ordered dictionary as a list
    of (title, "due status") items, or the exception raised.
  */
  method ParseAssignments(optionTexts: seq<string>, now: DateTime) returns (r: Result<seq<(string, string)>, PyError>)
    ensures Assignments(optionTexts, now).Err? ==> r == Err(Assignments(optionTexts, now).error)
    ensures Assignments(optionTexts, now).Ok? ==> r.Ok? && SortedItems(r.value, Assignments(optionTexts, now).value)
  {
    var temp: seq<string> := [];
    for i := 0 to |optionTexts|
      invariant temp == optionTexts[..i] && AllAscii(temp)
    {
      if !IsAscii(optionTexts[i]) {
        return Err(UnicodeEncodeError);
      }
      temp := temp + [optionTexts[i]];
    }
    assert temp == optionTexts;
    var titles: seq<string> := [];
    for i := 0 to |temp|
      invariant titles == Titles(temp[..i])
    {
      assert temp[..i + 1][..i] == temp[..i];
      titles := titles + [Title(temp[i])];
    }
    assert temp[..|temp|] == temp;
    // The guard `len(temp_assignments) < 0` that follows can never hold.
    var filled := FillAssignments(temp, titles, Lateness(now));
    match filled
    case Err(e) =>
      r := Err(e);
    case Ok(assignments) =>
      var items := SortItems(assignments);
      r := Ok(items);
  }

  /**
    The `while` loop of `parse_assignments`, `late` standing for `is_late`:
    each option's title gets its due date and lateness, in order, until the
    first lateness check that raises.
  */
  method FillAssignments(temp: seq<string>, titles: seq<string>, late: string -> Result<string, PyError>)
    returns (r: Result<map<string, string>, PyError>)
    requires |titles| == |temp|
    ensures Values(temp, Entries(late)).Err? ==> r == Err(Values(temp, Entries(late)).error)
    ensures Values(temp, Entries(late)).Ok? ==> r == Ok(ZipMap(titles, Values(temp, Entries(late)).value))
  {
    var i := 0;
    var assignments: map<string, string> := map[];
    ghost var values: seq<string> := [];
    while i < |temp|
      invariant 0 <= i <= |temp|
      invariant Values(temp[..i], Entries(late)) == Ok(values)
      invariant assignments == ZipMap(titles[..i], values)
    {
      var due := DueText(temp[i]);
      var status := late(due);
      EntryCases(temp[i], late);
      if status.Err? {
        ValuesFirstError(temp, i, Entries(late));
        return Err(status.error);
      }
      ValuesStep(temp, i, Entries(late), values);
      ZipMapStep(titles, i, values, due + " " + status.value);
      assignments := assignments[titles[i] := due + " " + status.value];
      values := values + [due + " " + status.value];
      i := i + 1;
    }
    assert temp[..i] == temp && titles[..i] == titles;
    r := Ok(assignments);
  }

  /** With no options the result is empty rather than missing: the early return never happens. */
  lemma NoOptions(now: DateTime)
    ensures Assignments([], now) == Ok(map[])
  {
  }

  /** The call fails exactly when an option text is not ASCII or a due date cannot be read. */
  lemma AssignmentsFail(texts: seq<string>, now: DateTime)
    ensures Assignments(texts, now).Ok? <==> AllAscii(texts) && forall i :: 0 <= i < |texts| ==> IsLate(DueText(texts[i]), now).Ok?
    ensures !AllAscii(texts) ==> Assignments(texts, now) == Err(UnicodeEncodeError)
  {
    ValuesOk(texts, Entries(Lateness(now)));
    forall i | 0 <= i < |texts|
      ensures Entries(Lateness(now))(texts[i]).Ok? <==> IsLate(DueText(texts[i]), now).Ok?
    {
      EntryCases(texts[i], Lateness(now));
    }
  }

  /**
    Each title maps to its option's due date, a space and its lateness ("- Late"
    or nothing); of two options with the same title the later one wins.
  */
  lemma AssignmentValue(texts: seq<string>, now: DateTime, i: int)
    requires Assignments(texts, now).Ok?
    requires 0 <= i < |texts| && LastOccurrence(Titles(texts), i)
    ensures IsLate(DueText(texts[i]), now).Ok?
    ensures Title(texts[i]) in Assignments(texts, now).value
    ensures Assignments(texts, now).value[Title(texts[i])] == DueText(texts[i]) + " " + IsLate(DueText(texts[i]), now).value
  {
    var vs := Values(texts, Entries(Lateness(now))).value;
    TitlesAt(texts, i);
    ValuesAt(texts, Entries(Lateness(now)), i);
    EntryCases(texts[i], Lateness(now));
    ZipMapLastWins(Titles(texts), vs, i);
  }
}
