/** The anchor names of the annotated source pages (`filteredString` and
    `makeRefName` in kythe/cs/cmd/index/index.go): a prefix letter and the
    identifier's letters, digits and underscores, numbered from the second use
    on so that every name on a page is different. */
module RefNames {
  import opened Seqs
  import opened Numbers

  /** The bytes `filteredString` keeps: `[0-9A-Za-z_]`. */
  predicate SlugByte(b: Byte) {
    ('0' as int <= b <= '9' as int) || ('A' as int <= b <= 'Z' as int)
    || ('a' as int <= b <= 'z' as int) || b == '_' as int
  }

  predicate SlugChar(c: char) {
    ('0' <= c <= '9') || ('A' <= c <= 'Z') || ('a' <= c <= 'z') || c == '_'
  }

  /** `filteredString`. */
  function FilteredString(s: seq<Byte>): (r: string)
    ensures |r| <= |s|
    ensures forall i :: 0 <= i < |r| ==> SlugChar(r[i])
  {
    if s == [] then ""
    else
      var b := s[|s| - 1];
      FilteredString(s[..|s| - 1]) + (if SlugByte(b) then [b as char] else "")
  }

  /** Filtering works byte by byte: the filter of a concatenation is the
      concatenation of the filters, and one byte is kept, as the same
      character, exactly when it is a slug byte.  Together these say the
      result is the slug bytes of the input, in order. */
  lemma {:induction false} FilteredConcat(a: seq<Byte>, b: seq<Byte>)
    ensures FilteredString(a + b) == FilteredString(a) + FilteredString(b)
  {
    if b != [] {
      var init := b[..|b| - 1];
      FilteredConcat(a, init);
      assert (a + b)[..|a + b| - 1] == a + init;
    } else {
      assert a + b == a;
    }
  }

  lemma FilteredByte(b: Byte)
    ensures FilteredString([b]) == if SlugByte(b) then [b as char] else ""
  {
    assert [b][..0] == [];
  }

  /** Filtering text that is already filtered changes nothing. */
  lemma {:induction false} FilteredIdempotent(s: seq<Byte>)
    requires forall i :: 0 <= i < |s| ==> SlugByte(s[i])
    ensures FilteredString(s) == seq(|s|, i requires 0 <= i < |s| => s[i] as char)
  {
    if s != [] {
      FilteredIdempotent(s[..|s| - 1]);
    }
  }

  /** The name for the `num`-th earlier use of `slug`: the slug itself the
      first time, then the slug, a dash and the number. */
  function RefName(slug: string, num: nat): string {
    if num == 0 then slug else slug + "-" + Itoa(num)
  }

  lemma ItoaNoDash(n: nat)
    ensures '-' !in Itoa(n)
  {
    var s := Itoa(n);
    forall i | 0 <= i < |s| ensures s[i] != '-' {
      assert IsDigit(s[i]);
    }
  }

  /** Splitting a name at its dashes gives back the slug, and the number
      when there is one. */
  lemma SplitRefName(slug: string, num: nat)
    requires '-' !in slug
    ensures Split(RefName(slug, num), '-') == if num == 0 then [slug] else [slug, Itoa(num)]
  {
    if num == 0 {
      SplitNoSep(slug, '-');
    } else {
      ItoaNoDash(num);
      SplitPrefix(slug, '-', Itoa(num));
      SplitNoSep(Itoa(num), '-');
    }
  }

  /** Different slugs or different numbers give different names, as long as
      the slugs hold no dash (a filtered identifier never does). */
  lemma RefNameInjective(s1: string, m: nat, s2: string, n: nat)
    requires '-' !in s1 && '-' !in s2
    requires RefName(s1, m) == RefName(s2, n)
    ensures s1 == s2 && m == n
  {
    SplitRefName(s1, m);
    SplitRefName(s2, n);
    if m != 0 && n != 0 {
      ItoaInjective(m, n);
    }
  }

  /** How many of `slugs` are `s`. */
  function Count(slugs: seq<string>, s: string): nat {
    if slugs == [] then 0
    else Count(slugs[..|slugs| - 1], s) + (if slugs[|slugs| - 1] == s then 1 else 0)
  }

  /** The names a page hands out for a sequence of slugs: each numbered by how
      often its slug was used before. */
  function NamesFor(slugs: seq<string>): (r: seq<string>)
    ensures |r| == |slugs|
  {
    seq(|slugs|, k requires 0 <= k < |slugs| => RefName(slugs[k], Count(slugs[..k], slugs[k])))
  }

  lemma {:induction false} CountGrows(slugs: seq<string>, i: nat, j: nat)
    requires i < j <= |slugs|
    ensures Count(slugs[..j], slugs[i]) >= Count(slugs[..i], slugs[i]) + 1
  {
    if j == i + 1 {
      assert slugs[..j][..i] == slugs[..i];
    } else {
      CountGrows(slugs, i, j - 1);
      assert slugs[..j][..j - 1] == slugs[..j - 1];
    }
  }

  /** Every name a page hands out is different from every other. */
  lemma NamesDistinct(slugs: seq<string>)
    requires forall k :: 0 <= k < |slugs| ==> '-' !in slugs[k]
    ensures forall i, j :: 0 <= i < j < |slugs| ==> NamesFor(slugs)[i] != NamesFor(slugs)[j]
  {
    var names := NamesFor(slugs);
    forall i, j | 0 <= i < j < |slugs| ensures names[i] != names[j] {
      if names[i] == names[j] {
        RefNameInjective(slugs[i], Count(slugs[..i], slugs[i]), slugs[j], Count(slugs[..j], slugs[j]));
        CountGrows(slugs, i, j);
        assert false;
      }
    }
  }

  /** The `refNumbers` map of one page. */
  class RefNumbers {
    var counts: map<string, nat>

    /** The map records how often each slug of `issued` was used. */
    ghost predicate Tracks(issued: seq<string>)
      reads this
    {
      forall s :: (s in counts ==> counts[s] == Count(issued, s)) && (s !in counts ==> Count(issued, s) == 0)
    }

    constructor ()
      ensures counts == map[] && Tracks([])
    {
      counts := map[];
    }

    /** `makeRefName`: the slug is the prefix and the filtered identifier; it
        gets the number of earlier uses (none shown for the first), and only
        its own count goes up.  `issued` is the slugs of the earlier calls. */
    method MakeRefName(prefix: char, id: seq<Byte>, ghost issued: seq<string>) returns (refname: string)
      requires Tracks(issued)
      modifies this
      ensures var slug := [prefix] + FilteredString(id);
              var num := if slug in old(counts) then old(counts[slug]) else 0;
              && counts == old(counts)[slug := num + 1]
              && refname == RefName(slug, num)
      ensures Tracks(issued + [[prefix] + FilteredString(id)])
      ensures refname == NamesFor(issued + [[prefix] + FilteredString(id)])[|issued|]
    {
      var slug := [prefix] + FilteredString(id);
      var num := if slug in counts then counts[slug] else 0;
      counts := counts[slug := num + 1];
      refname := slug;
      if num != 0 {
        refname := refname + "-" + Itoa(num);
      }
      ghost var all := issued + [slug];
      assert all[..|all| - 1] == issued && all[..|issued|] == issued;
    }
  }

  /** A slug made from a prefix other than a dash holds no dash. */
  lemma SlugNoDash(prefix: char, id: seq<Byte>)
    requires prefix != '-'
    ensures '-' !in [prefix] + FilteredString(id)
  {
    var s := [prefix] + FilteredString(id);
    forall i | 0 <= i < |s| ensures s[i] != '-' {
      if i > 0 { assert SlugChar(FilteredString(id)[i - 1]); }
    }
  }
}
