/** The records of the document library and the facts about lists of them
    that the store's operations rely on. A record is a JSON object with the
    keys "title" and "notes"; a record read back from the library file may
    lack either key. The list box, the title label and the notes editor then
    fall back to the empty string (TitleOf, NotesOf), while the title
    searches use no default, so a record without a title never matches
    them (FindFrom). */
module Records {

  datatype Option<T> = None | Some(value: T)

  /** One document record; `None` stands for a key the JSON object lacks. */
  datatype Doc = Doc(title: Option<string>, notes: Option<string>)

  /** `doc.get("title", "")` */
  function TitleOf(d: Doc): string {
    match d.title
    case Some(t) => t
    case None => ""
  }

  /** `doc.get("notes", "")` */
  function NotesOf(d: Doc): string {
    match d.notes
    case Some(n) => n
    case None => ""
  }

  /** The record that adding a document appends: `{"title": title, "notes": ""}`. */
  function NewDoc(title: string): Doc {
    Doc(Some(title), Some(""))
  }

  /** The entries of the list box: every record's title, in order. */
  function Titles(docs: seq<Doc>): (r: seq<string>)
    ensures |r| == |docs|
    ensures forall k | 0 <= k < |docs| :: r[k] == TitleOf(docs[k])
  {
    seq(|docs|, k requires 0 <= k < |docs| => TitleOf(docs[k]))
  }

  /** The position of the first record at or after `from` whose "title" key
      holds `t`, if any (`doc.get("title") == t`: a record without a title
      never matches). */
  function FindFrom(docs: seq<Doc>, t: string, from: nat): (r: Option<nat>)
    requires from <= |docs|
    ensures r.Some? ==> from <= r.value < |docs| && docs[r.value].title == Some(t)
    ensures r.Some? ==> forall k | from <= k < r.value :: docs[k].title != Some(t)
    ensures r.None? <==> forall k | from <= k < |docs| :: docs[k].title != Some(t)
    decreases |docs| - from
  {
    if from == |docs| then None
    else if docs[from].title == Some(t) then Some(from)
    else FindFrom(docs, t, from + 1)
  }

  /** The position of the first record titled `t`, if any. */
  function FirstIndexOf(docs: seq<Doc>, t: string): (r: Option<nat>)
    ensures r.Some? ==> r.value < |docs| && docs[r.value].title == Some(t)
    ensures r.Some? ==> forall k | 0 <= k < r.value :: docs[k].title != Some(t)
    ensures r.None? <==> forall k | 0 <= k < |docs| :: docs[k].title != Some(t)
  {
    FindFrom(docs, t, 0)
  }

  /** Records `i` and `j` do not share a title (a record without a title
      shares none). */
  predicate TitlesDiffer(docs: seq<Doc>, i: nat, j: nat)
    requires i < |docs| && j < |docs|
  {
    docs[i].title.Some? ==> docs[i].title != docs[j].title
  }

  /** No two records carry the same title. */
  predicate DistinctTitles(docs: seq<Doc>) {
    forall i, j | 0 <= i < j < |docs| :: TitlesDiffer(docs, i, j)
  }

  /** The search result is determined by its contract: the first position
      that holds `t` is the one returned. */
  lemma FirstIndexOfIs(docs: seq<Doc>, t: string, i: nat)
    requires i < |docs| && docs[i].title == Some(t)
    requires forall k | 0 <= k < i :: docs[k].title != Some(t)
    ensures FirstIndexOf(docs, t) == Some(i)
  {
  }

  /** Appending a record under a title no record has keeps the titles
      distinct. */
  lemma AppendFreshKeepsDistinct(docs: seq<Doc>, t: string)
    requires DistinctTitles(docs) && FirstIndexOf(docs, t).None?
    ensures DistinctTitles(docs + [NewDoc(t)])
  {
    var e := docs + [NewDoc(t)];
    forall i, j | 0 <= i < j < |e| ensures TitlesDiffer(e, i, j) {
      assert e[i] == docs[i];
      if j < |docs| {
        assert e[j] == docs[j] && TitlesDiffer(docs, i, j);
      }
    }
  }

  /** A search for a title no record had finds the record appended under it
      at the end. */
  lemma AppendFreshFoundLast(docs: seq<Doc>, t: string)
    requires FirstIndexOf(docs, t).None?
    ensures FirstIndexOf(docs + [NewDoc(t)], t) == Some(|docs|)
  {
    var e := docs + [NewDoc(t)];
    assert forall k | 0 <= k < |docs| :: e[k] == docs[k];
    FirstIndexOfIs(e, t, |docs|);
  }

  /** Under distinct titles, the search for a record's own title finds it. */
  lemma DistinctFindsItself(docs: seq<Doc>, i: nat)
    requires DistinctTitles(docs) && i < |docs| && docs[i].title.Some?
    ensures FirstIndexOf(docs, docs[i].title.value) == Some(i)
  {
    forall k | 0 <= k < i ensures docs[k].title != docs[i].title {
      assert TitlesDiffer(docs, k, i);
    }
    FirstIndexOfIs(docs, docs[i].title.value, i);
  }

  /** Removing record `i` keeps the titles distinct; if the titles were
      distinct, the removed record's title is no longer in the list. */
  lemma RemoveKeepsDistinct(docs: seq<Doc>, i: nat)
    requires DistinctTitles(docs) && i < |docs|
    ensures DistinctTitles(docs[..i] + docs[i + 1..])
    ensures docs[i].title.Some? ==> FirstIndexOf(docs[..i] + docs[i + 1..], docs[i].title.value).None?
  {
    var e := docs[..i] + docs[i + 1..];
    forall a, b | 0 <= a < b < |e| ensures TitlesDiffer(e, a, b) {
      var a', b' := if a < i then a else a + 1, if b < i then b else b + 1;
      assert e[a] == docs[a'] && e[b] == docs[b'];
      assert TitlesDiffer(docs, a', b');
    }
    if docs[i].title.Some? {
      forall k | 0 <= k < |e| ensures e[k].title != docs[i].title {
        if k < i {
          assert e[k] == docs[k] && TitlesDiffer(docs, k, i);
        } else {
          assert e[k] == docs[k + 1] && TitlesDiffer(docs, i, k + 1);
        }
      }
    }
  }

  /** The list box after a removal is the old one without entry `i`. */
  lemma TitlesRemove(docs: seq<Doc>, i: nat)
    requires i < |docs|
    ensures Titles(docs[..i] + docs[i + 1..]) == Titles(docs)[..i] + Titles(docs)[i + 1..]
  {
    var e := docs[..i] + docs[i + 1..];
    var t := Titles(docs);
    var a, b := Titles(e), t[..i] + t[i + 1..];
    assert |a| == |b|;
    forall k | 0 <= k < |a| ensures a[k] == b[k] {
      if k < i {
        assert e[k] == docs[k] && b[k] == t[k];
      } else {
        assert e[k] == docs[k + 1] && b[k] == t[k + 1];
      }
    }
    assert a == b;
  }

  /** Two lists whose records carry the same titles, position by position. */
  predicate SameTitles(a: seq<Doc>, b: seq<Doc>) {
    |a| == |b| && forall k | 0 <= k < |a| :: a[k].title == b[k].title
  }

  /** Replacing the notes of record `i` leaves every title where it was. */
  lemma SetNotesSameTitles(docs: seq<Doc>, i: nat, n: string)
    requires i < |docs|
    ensures SameTitles(docs[i := docs[i].(notes := Some(n))], docs)
  {
  }

  /** Lists with the same titles show the same list box entries. */
  lemma SameTitlesListed(a: seq<Doc>, b: seq<Doc>)
    requires SameTitles(a, b)
    ensures Titles(a) == Titles(b)
  {
    var x, y := Titles(a), Titles(b);
    forall k | 0 <= k < |x| ensures x[k] == y[k] {
      assert TitleOf(a[k]) == TitleOf(b[k]);
    }
  }

  /** Lists with the same titles agree on whether the titles are distinct. */
  lemma SameTitlesDistinct(a: seq<Doc>, b: seq<Doc>)
    requires SameTitles(a, b)
    ensures DistinctTitles(a) <==> DistinctTitles(b)
  {
    if DistinctTitles(a) {
      forall i, j | 0 <= i < j < |b| ensures TitlesDiffer(b, i, j) {
        assert TitlesDiffer(a, i, j);
      }
    }
    if DistinctTitles(b) {
      forall i, j | 0 <= i < j < |a| ensures TitlesDiffer(a, i, j) {
        assert TitlesDiffer(b, i, j);
      }
    }
  }
}
