/** The palette library of the picker in `src/picker.js`: palettes as records
    in plain lists, the stable sort by upper-cased name, the `#` prefix every
    colour gets, and the list updates behind the upload, save, delete,
    remove-colour and select controls. Every update returns a new list; the
    widgets, storage and file reading around them are not modelled. */
module PaletteLibrary {
  import opened Wrappers
  import opened JsText

  /** A palette record. Uploaded palettes carry an author, saved ones do not. */
  datatype Palette = Palette(name: string, author: Option<string>, colors: seq<string>)

  /** The names of a list of palettes, in order. */
  function Names(list: seq<Palette>): (names: seq<string>)
    ensures |names| == |list| && forall i :: 0 <= i < |list| ==> names[i] == list[i].name
  {
    seq(|list|, i requires 0 <= i < |list| => list[i].name)
  }

  /** No two palettes of the list share a name. */
  predicate DistinctNames(list: seq<Palette>) {
    forall i, j :: 0 <= i < j < |list| ==> list[i].name != list[j].name
  }

  // ------------------------------------------------------------ the sort

  /** The sort key: the name in upper case. */
  function Key(p: Palette): string {
    ToUpper(p.name)
  }

  /** The sort ignores case: names equal once lower-cased have equal keys. */
  lemma KeyIgnoresCase(a: Palette, b: Palette)
    requires ToLower(a.name) == ToLower(b.name)
    ensures Key(a) == Key(b)
  {
    assert |a.name| == |b.name|;
    forall i | 0 <= i < |a.name|
      ensures UpperChar(a.name[i]) == UpperChar(b.name[i])
    {
      assert LowerChar(a.name[i]) == ToLower(a.name)[i] == ToLower(b.name)[i] == LowerChar(b.name[i]);
    }
  }

  /** The comparator returns -1: `a` goes before `b`. */
  predicate Before(a: Palette, b: Palette) {
    StrLess(Key(a), Key(b))
  }

  /** No palette comes after one it should precede. */
  predicate SortedByName(s: seq<Palette>) {
    forall i, j :: 0 <= i < j < |s| ==> !Before(s[j], s[i])
  }

  lemma BeforeAsymmetric(a: Palette, b: Palette)
    requires Before(a, b)
    ensures !Before(b, a)
  {
    if Before(b, a) {
      StrLessTransitive(Key(a), Key(b), Key(a));
      StrLessIrreflexive(Key(a));
    }
  }

  /** "Not after" is transitive. */
  lemma NotBeforeTransitive(a: Palette, b: Palette, c: Palette)
    requires !Before(b, a) && !Before(c, b)
    ensures !Before(c, a)
  {
    StrNotLessTransitive(Key(a), Key(b), Key(c));
  }

  /** Insert `x` into a sorted list after every palette that does not sort
      after it, as one pass of an insertion sort moves it left past the
      palettes whose key is strictly greater. */
  function Insert(x: Palette, s: seq<Palette>): (r: seq<Palette>)
    requires SortedByName(s)
    ensures multiset(r) == multiset(s) + multiset{x}
    ensures SortedByName(r)
    decreases |s|
  {
    if |s| == 0 then [x]
    else
      var prefix, last := s[..|s| - 1], s[|s| - 1];
      assert s == prefix + [last];
      if Before(x, last) then
        var r := Insert(x, prefix);
        InsertBelow(x, prefix, last, r);
        r + [last]
      else
        forall i | 0 <= i < |prefix|
          ensures !Before(x, prefix[i])
        {
          NotBeforeTransitive(prefix[i], last, x);
        }
        s + [x]
  }

  /** Putting back the last palette after `x` was inserted below it keeps
      the order. */
  lemma InsertBelow(x: Palette, prefix: seq<Palette>, last: Palette, r: seq<Palette>)
    requires SortedByName(prefix + [last]) && Before(x, last)
    requires multiset(r) == multiset(prefix) + multiset{x} && SortedByName(r)
    ensures SortedByName(r + [last])
  {
    BeforeAsymmetric(x, last);
    forall e | e in r
      ensures !Before(last, e)
    {
      assert e in multiset(r);
      if e != x {
        assert e in multiset(prefix);
        var i :| 0 <= i < |prefix| && prefix[i] == e;
        assert (prefix + [last])[i] == e && (prefix + [last])[|prefix|] == last;
      }
    }
    forall i, j | 0 <= i < j < |r + [last]|
      ensures !Before((r + [last])[j], (r + [last])[i])
    {
      if j == |r| {
        assert (r + [last])[i] == r[i];
        assert r[i] in r;
      }
    }
  }

  /** `sortPalettesByName`: a new list, sorted by upper-cased name, holding
      the same palettes. */
  function SortByName(s: seq<Palette>): (r: seq<Palette>)
    ensures multiset(r) == multiset(s)
    ensures SortedByName(r)
    decreases |s|
  {
    if |s| == 0 then []
    else
      assert s == s[..|s| - 1] + [s[|s| - 1]];
      Insert(s[|s| - 1], SortByName(s[..|s| - 1]))
  }

  /** The palettes of `s` whose key is `k`, in their order in `s`. */
  function WithKey(s: seq<Palette>, k: string): seq<Palette>
    decreases |s|
  {
    if |s| == 0 then []
    else WithKey(s[..|s| - 1], k) + (if Key(s[|s| - 1]) == k then [s[|s| - 1]] else [])
  }

  lemma WithKeyAppend(s: seq<Palette>, x: Palette, k: string)
    ensures WithKey(s + [x], k) == WithKey(s, k) + (if Key(x) == k then [x] else [])
  {
    assert (s + [x])[..|s|] == s;
  }

  /** Inserting `x` puts it after every palette of the same key. */
  lemma {:induction false} InsertWithKey(x: Palette, s: seq<Palette>, k: string)
    requires SortedByName(s)
    ensures WithKey(Insert(x, s), k) == WithKey(s, k) + (if Key(x) == k then [x] else [])
    decreases |s|
  {
    if |s| == 0 {
      WithKeyAppend([], x, k);
    } else {
      var prefix, last := s[..|s| - 1], s[|s| - 1];
      assert s == prefix + [last];
      if Before(x, last) {
        InsertBeforeLast(x, s);
        var r := Insert(x, prefix);
        InsertWithKey(x, prefix, k);
        WithKeyAppend(r, last, k);
        WithKeyAppend(prefix, last, k);
        BeforeKeysCommute(x, last, k);
      } else {
        WithKeyAppend(s, x, k);
      }
    }
  }

  /** Inserting below the last palette inserts into the rest and keeps the last
      one last. */
  lemma InsertBeforeLast(x: Palette, s: seq<Palette>)
    requires SortedByName(s) && |s| > 0 && Before(x, s[|s| - 1])
    ensures SortedByName(s[..|s| - 1])
    ensures Insert(x, s) == Insert(x, s[..|s| - 1]) + [s[|s| - 1]]
  {
    var prefix := s[..|s| - 1];
    forall i, j | 0 <= i < j < |prefix| ensures !Before(prefix[j], prefix[i]) {
      assert prefix[i] == s[i] && prefix[j] == s[j];
    }
  }

  /** Two palettes in strict order never share a key, so their contributions
      to one key's list commute. */
  lemma BeforeKeysCommute(x: Palette, y: Palette, k: string)
    requires Before(x, y)
    ensures var xs, ys := (if Key(x) == k then [x] else []), (if Key(y) == k then [y] else []);
      xs + ys == ys + xs
  {
    StrLessIrreflexive(Key(x));
  }

  /** The sort is stable: the palettes of any one key come out in the order
      they came in. With the order and the multiset, this pins the result
      down completely. */
  lemma {:induction false} SortStable(s: seq<Palette>, k: string)
    ensures WithKey(SortByName(s), k) == WithKey(s, k)
    decreases |s|
  {
    if |s| > 0 {
      var prefix, last := s[..|s| - 1], s[|s| - 1];
      SortStable(prefix, k);
      InsertWithKey(last, SortByName(prefix), k);
    }
  }

  /** A sorted list comes back as it is, so sorting twice is sorting once. */
  lemma {:induction false} SortOfSorted(s: seq<Palette>)
    requires SortedByName(s)
    ensures SortByName(s) == s
    decreases |s|
  {
    if |s| > 0 {
      var prefix, last := s[..|s| - 1], s[|s| - 1];
      assert s == prefix + [last];
      forall i, j | 0 <= i < j < |prefix|
        ensures !Before(prefix[j], prefix[i])
      {
        assert s[i] == prefix[i] && s[j] == prefix[j];
      }
      SortOfSorted(prefix);
      if |prefix| > 0 {
        assert s[|s| - 2] == prefix[|prefix| - 1];
      }
      assert s == prefix + [last];
    }
  }

  lemma SortIdempotent(s: seq<Palette>)
    ensures SortByName(SortByName(s)) == SortByName(s)
  {
    SortOfSorted(SortByName(s));
  }

  // ------------------------------------------------------- the `#` prefix

  /** `c.startsWith('#') ? c : '#' + c`. */
  function Normalize(c: string): (r: string)
    ensures StartsWith(r, "#")
    ensures r == c || r == "#" + c
    ensures r[1..] == (if StartsWith(c, "#") then c[1..] else c)
  {
    if StartsWith(c, "#") then c
    else
      assert ("#" + c)[..1] == "#";
      "#" + c
  }

  /** Normalising twice is normalising once. */
  lemma NormalizeIdempotent(c: string)
    ensures Normalize(Normalize(c)) == Normalize(c)
  {
  }

  /** The `colors.map(...)` of every palette load and upload. */
  function NormalizeAll(colors: seq<string>): (r: seq<string>)
    ensures |r| == |colors|
    ensures forall i :: 0 <= i < |colors| ==> StartsWith(r[i], "#") && r[i] == Normalize(colors[i])
  {
    seq(|colors|, i requires 0 <= i < |colors| => Normalize(colors[i]))
  }

  lemma NormalizeAllIdempotent(colors: seq<string>)
    ensures NormalizeAll(NormalizeAll(colors)) == NormalizeAll(colors)
  {
    var once := NormalizeAll(colors);
    forall i | 0 <= i < |colors|
      ensures NormalizeAll(once)[i] == once[i]
    {
      NormalizeIdempotent(colors[i]);
    }
  }

  // --------------------------------------------------------------- upload

  /** The name tried on attempt `n` of the upload's naming loop: the name
      itself, then `name-1`, `name-2`, and so on. */
  function Candidate(base: string, n: nat): (name: string)
    ensures n == 0 ==> name == base
    ensures n > 0 ==> |name| > |base| + 1 && name[..|base| + 1] == base + "-"
  {
    if n == 0 then base
    else
      var name := base + "-" + DecimalString(n);
      assert name[..|base| + 1] == base + "-";
      name
  }

  /** Different attempts try different names. */
  lemma CandidateInjective(base: string, m: nat, n: nat)
    requires m != n
    ensures Candidate(base, m) != Candidate(base, n)
  {
    if m > 0 && n > 0 {
      DecimalStringInjective(m, n);
      assert Candidate(base, m)[|base| + 1..] == DecimalString(m);
      assert Candidate(base, n)[|base| + 1..] == DecimalString(n);
    }
  }

  /** The names of the first `n` attempts. */
  function Tried(base: string, n: nat): set<string> {
    if n == 0 then {} else Tried(base, n - 1) + {Candidate(base, n - 1)}
  }

  /** A later attempt is not among the earlier ones. */
  lemma {:induction false} LaterNotTried(base: string, n: nat, m: nat)
    requires m >= n
    ensures Candidate(base, m) !in Tried(base, n)
  {
    if n > 0 {
      CandidateInjective(base, n - 1, m);
      LaterNotTried(base, n - 1, m);
    }
  }

  /** The first `n` attempts are `n` different names. */
  lemma {:induction false} TriedCount(base: string, n: nat)
    ensures |Tried(base, n)| == n
  {
    if n > 0 {
      TriedCount(base, n - 1);
      LaterNotTried(base, n - 1, n - 1);
    }
  }

  /** When the first `n` attempts are taken, so is every name they tried. */
  lemma {:induction false} TriedTaken(base: string, names: seq<string>, n: nat)
    requires forall j :: 0 <= j < n ==> Candidate(base, j) in names
    ensures forall x :: x in Tried(base, n) ==> x in names
  {
    if n > 0 {
      TriedTaken(base, names, n - 1);
    }
  }

  /** A list holds at most as many different strings as it has entries. */
  lemma {:induction false} DistinctElementsBound(names: seq<string>, sub: set<string>)
    requires forall x :: x in sub ==> x in names
    ensures |sub| <= |names|
    decreases |names|
  {
    if |names| > 0 {
      var last := names[|names| - 1];
      var prefix := names[..|names| - 1];
      assert names == prefix + [last];
      var rest := sub - {last};
      forall x | x in rest
        ensures x in prefix
      {
        assert x in names;
        var i :| 0 <= i < |names| && names[i] == x;
        assert i < |prefix|;
      }
      DistinctElementsBound(prefix, rest);
    }
  }

  /** When the first `n` attempts are all taken, there are at least `n`
      palettes: the naming loop stops within `|names| + 1` attempts. */
  lemma TakenBound(base: string, names: seq<string>, n: nat)
    requires forall j :: 0 <= j < n ==> Candidate(base, j) in names
    ensures n <= |names|
  {
    TriedCount(base, n);
    TriedTaken(base, names, n);
    DistinctElementsBound(names, Tried(base, n));
  }

  /** What `JSON.parse` produced for an uploaded file, as far as
      `addUploadedPalette` looks at it: `null`, or an object whose `name` and
      `author` may be missing and whose `colors` may not be an array. */
  datatype Upload = Upload(name: Option<string>, author: Option<string>, colors: Option<seq<string>>)

  /** `!palette || !palette.name || !Array.isArray(palette.colors)`: the
      empty string is a missing name. */
  predicate Rejected(upload: Option<Upload>) {
    upload.None? || upload.value.name.None? || upload.value.name.value == ""
      || upload.value.colors.None?
  }

  /** `palette.author || 'Unknown'`. */
  function AuthorOrUnknown(author: Option<string>): (a: string)
    ensures a != ""
    ensures author.Some? && author.value != "" ==> a == author.value
  {
    if author.Some? && author.value != "" then author.value else "Unknown"
  }

  /** `name` is the first attempt of the naming loop that no palette holds. */
  ghost predicate FirstFree(base: string, names: seq<string>, name: string) {
    name !in names && exists m: nat :: name == Candidate(base, m) && forall j :: 0 <= j < m ==> Candidate(base, j) in names
  }

  /** `addUploadedPalette`: a rejected upload changes nothing and returns no
      index; otherwise the palette is appended under the first free name of
      `base`, `base-1`, `base-2`, …, with its author or 'Unknown' and its
      colours prefixed with `#`, and the new last index is returned. */
  method AddUploadedPalette(customs: seq<Palette>, upload: Option<Upload>) returns (out: seq<Palette>, index: Option<nat>)
    ensures Rejected(upload) ==> out == customs && index.None?
    ensures !Rejected(upload) ==>
      && index == Some(|customs|) && |out| == |customs| + 1 && out[..|customs|] == customs
      && FirstFree(upload.value.name.value, Names(customs), out[|customs|].name)
      && out[|customs|].author == Some(AuthorOrUnknown(upload.value.author))
      && out[|customs|].colors == NormalizeAll(upload.value.colors.value)
  {
    if Rejected(upload) {
      return customs, None;
    }
    var base := upload.value.name.value;
    var names := Names(customs);
    var name := base;
    var counter: nat := 1;
    while name in names
      invariant counter >= 1 && name == Candidate(base, counter - 1)
      invariant forall j :: 0 <= j < counter - 1 ==> Candidate(base, j) in names
      decreases |names| + 1 - counter
    {
      TakenBound(base, names, counter);
      name := Candidate(base, counter);
      counter := counter + 1;
    }
    var entry := Palette(name, Some(AuthorOrUnknown(upload.value.author)), NormalizeAll(upload.value.colors.value));
    out := customs + [entry];
    index := Some(|out| - 1);
    assert out[..|customs|] == customs;
  }

  /** An upload keeps the names distinct. */
  lemma AddedNameIsFresh(customs: seq<Palette>, out: seq<Palette>, base: string)
    requires DistinctNames(customs) && |out| == |customs| + 1 && out[..|customs|] == customs
    requires FirstFree(base, Names(customs), out[|customs|].name)
    ensures DistinctNames(out)
  {
    forall i | 0 <= i < |customs|
      ensures out[i].name != out[|customs|].name
    {
      assert out[i] == customs[i];
      assert Names(customs)[i] == customs[i].name;
    }
  }

  // ------------------------------------------------------------ save, delete

  /** `customPalettes.findIndex(p => p.name === name)`. */
  function FindIndex(list: seq<Palette>, name: string): (r: Option<nat>)
    ensures r.None? <==> name !in Names(list)
    ensures r.Some? ==> (r.value < |list| && list[r.value].name == name
      && forall j :: 0 <= j < r.value ==> list[j].name != name)
    decreases |list|
  {
    if |list| == 0 then None
    else if list[0].name == name then Some(0)
    else
      var rest := FindIndex(list[1..], name);
      assert forall j :: 0 < j < |list| ==> Names(list)[j] == Names(list[1..])[j - 1];
      if rest.None? then None else Some(rest.value + 1)
  }

  /** The save handler: a blank trimmed name stops it; a palette of that name
      is replaced in place by `{ name, colors }`; otherwise one is appended.
      The second result is the index the custom selector then shows. */
  function Save(customs: seq<Palette>, typed: string, active: seq<string>): (r: (seq<Palette>, Option<nat>))
    ensures Trim(typed) == "" ==> r == (customs, None)
    ensures Trim(typed) != "" && Trim(typed) in Names(customs) ==>
      var i := FindIndex(customs, Trim(typed)).value;
      |r.0| == |customs| && r.0[i] == Palette(Trim(typed), None, active)
        && forall j :: 0 <= j < |customs| && j != i ==> r.0[j] == customs[j]
    ensures Trim(typed) != "" && Trim(typed) !in Names(customs) ==> r.0 == customs + [Palette(Trim(typed), None, active)]
    ensures Trim(typed) != "" ==> r.1 == FindIndex(r.0, Trim(typed)) && r.1.Some?
  {
    var name := Trim(typed);
    if name == "" then (customs, None)
    else
      var entry := Palette(name, None, active);
      var existing := FindIndex(customs, name);
      var out := if existing.Some? then customs[existing.value := entry] else customs + [entry];
      assert out[if existing.Some? then existing.value else |customs|] == entry;
      (out, FindIndex(out, name))
  }

  /** With distinct names before, saving keeps them distinct, and the saved
      name is held by the selected entry alone. */
  lemma SaveKeepsDistinct(customs: seq<Palette>, typed: string, active: seq<string>)
    requires DistinctNames(customs) && Trim(typed) != ""
    ensures DistinctNames(Save(customs, typed, active).0)
    ensures forall j :: 0 <= j < |Save(customs, typed, active).0| && Save(customs, typed, active).0[j].name == Trim(typed) ==>
      Save(customs, typed, active).1 == Some(j)
  {
    var name := Trim(typed);
    var r := Save(customs, typed, active);
    var entry := Palette(name, None, active);
    if name in Names(customs) {
      ReplaceKeepsDistinct(customs, FindIndex(customs, name).value, entry);
    } else {
      AppendKeepsDistinct(customs, entry);
    }
    DistinctFirstIsOnly(r.0, name);
  }

  /** Replacing the entry that holds a name by another of that name keeps the
      names distinct. */
  lemma ReplaceKeepsDistinct(list: seq<Palette>, i: nat, entry: Palette)
    requires DistinctNames(list) && i < |list| && list[i].name == entry.name
    ensures DistinctNames(list[i := entry])
  {
    var r := list[i := entry];
    forall a, b | 0 <= a < b < |r|
      ensures r[a].name != r[b].name
    {
      assert r[a].name == list[a].name && r[b].name == list[b].name;
    }
  }

  /** Appending a name no entry holds keeps the names distinct. */
  lemma AppendKeepsDistinct(list: seq<Palette>, entry: Palette)
    requires DistinctNames(list) && entry.name !in Names(list)
    ensures DistinctNames(list + [entry])
  {
    var r := list + [entry];
    forall a, b | 0 <= a < b < |r|
      ensures r[a].name != r[b].name
    {
      assert r[a] == list[a];
      if b == |list| {
        assert Names(list)[a] == list[a].name;
      } else {
        assert r[b] == list[b];
      }
    }
  }

  /** In a list of distinct names, the first entry holding a name is the
      only one. */
  lemma DistinctFirstIsOnly(list: seq<Palette>, name: string)
    requires DistinctNames(list)
    ensures forall j :: 0 <= j < |list| && list[j].name == name ==> FindIndex(list, name) == Some(j)
  {
    forall j | 0 <= j < |list| && list[j].name == name
      ensures FindIndex(list, name) == Some(j)
    {
      assert Names(list)[j] == name;
    }
  }

  /** The value of a `<select>` of the picker: its 'none' option, an empty
      value, or an index. */
  datatype Selection = NoneOption | Blank | At(index: nat)

  /** `list.splice(i, 1)`: the entry at `i` goes, the rest close up; an
      index past the end removes nothing. */
  function RemoveAt<T>(list: seq<T>, i: nat): (r: seq<T>)
    ensures i >= |list| ==> r == list
    ensures i < |list| ==> (|r| == |list| - 1
      && (forall j :: 0 <= j < i ==> r[j] == list[j])
      && (forall j :: i <= j < |r| ==> r[j] == list[j + 1]))
  {
    if i < |list| then list[..i] + list[i + 1..] else list
  }

  /** Removing an entry keeps the others in order, so the names stay
      distinct. */
  lemma RemoveAtKeepsDistinct(list: seq<Palette>, i: nat)
    requires DistinctNames(list)
    ensures DistinctNames(RemoveAt(list, i))
  {
    var r := RemoveAt(list, i);
    forall a, b | 0 <= a < b < |r|
      ensures r[a].name != r[b].name
    {
      if i < |list| {
        var a', b' := if a < i then a else a + 1, if b < i then b else b + 1;
        assert r[a] == list[a'] && r[b] == list[b'];
      }
    }
  }

  /** The delete handler: nothing happens for an empty value or 'none';
      otherwise the selected custom palette is removed. */
  function Delete(customs: seq<Palette>, selected: Selection): (r: seq<Palette>)
    ensures !selected.At? ==> r == customs
    ensures selected.At? && selected.index < |customs| ==> (|r| == |customs| - 1
      && multiset(r) + multiset{customs[selected.index]} == multiset(customs))
    ensures selected.At? ==> r == RemoveAt(customs, selected.index)
  {
    if selected.At? then
      var i := selected.index;
      if i < |customs| then
        assert customs == customs[..i] + [customs[i]] + customs[i + 1..];
        RemoveAt(customs, i)
      else customs
    else customs
  }

  /** The remove button of colour `i` of the active palette. */
  function RemoveColor(active: seq<string>, i: nat): (r: seq<string>)
    ensures i < |active| ==> multiset(r) + multiset{active[i]} == multiset(active)
    ensures i >= |active| ==> r == active
    ensures r == RemoveAt(active, i)
  {
    if i < |active| then
      assert active == active[..i] + [active[i]] + active[i + 1..];
      RemoveAt(active, i)
    else active
  }

  /** The add-colour button appends white. */
  function AddColor(active: seq<string>): (r: seq<string>)
    ensures |r| == |active| + 1 && r[..|active|] == active && r[|active|] == "#ffffff"
  {
    active + ["#ffffff"]
  }

  // ------------------------------------------------------------ selection

  /** The default selector: 'none' resets the active palette to white alone;
      an index loads that default palette with `#` prefixes. An index past
      the list or an empty value throws, shown as `None`. */
  function SelectDefault(defaults: seq<Palette>, selected: Selection): (r: Option<seq<string>>)
    ensures selected.NoneOption? ==> r == Some(["#ffffff"])
    ensures r.Some? ==> |r.value| > 0 || (selected.At? && selected.index < |defaults| && |defaults[selected.index].colors| == 0)
    ensures r.Some? ==> forall i :: 0 <= i < |r.value| ==> StartsWith(r.value[i], "#")
    ensures r.None? <==> selected.Blank? || (selected.At? && selected.index >= |defaults|)
    ensures selected.At? && selected.index < |defaults| ==>
      && r.Some? && |r.value| == |defaults[selected.index].colors|
      && forall j :: 0 <= j < |r.value| ==> r.value[j] == Normalize(defaults[selected.index].colors[j])
  {
    match selected
    case NoneOption =>
      assert StartsWith("#ffffff", "#");
      Some(["#ffffff"])
    case Blank => None
    case At(i) => if i < |defaults| then Some(NormalizeAll(defaults[i].colors)) else None
  }

  /** The custom selector: 'none' resets to white alone; an index copies that
      custom palette's colours as stored. */
  function SelectCustom(customs: seq<Palette>, selected: Selection): (r: Option<seq<string>>)
    ensures selected.NoneOption? ==> r == Some(["#ffffff"])
    ensures selected.At? && selected.index < |customs| ==> r == Some(customs[selected.index].colors)
    ensures r.None? <==> selected.Blank? || (selected.At? && selected.index >= |customs|)
  {
    match selected
    case NoneOption => Some(["#ffffff"])
    case Blank => None
    case At(i) => if i < |customs| then Some(customs[i].colors) else None
  }

  /** After an upload the custom selector shows the new palette, and the
      active palette becomes its colours, every one starting with `#`. */
  lemma UploadThenSelect(customs: seq<Palette>, out: seq<Palette>, upload: Upload)
    requires !Rejected(Some(upload)) && |out| == |customs| + 1
    requires out[|customs|].colors == NormalizeAll(upload.colors.value)
    ensures var r := SelectCustom(out, At(|customs|));
      r.Some? && |r.value| == |upload.colors.value| && forall i :: 0 <= i < |r.value| ==> StartsWith(r.value[i], "#")
  {
  }
}
