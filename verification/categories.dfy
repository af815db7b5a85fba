/** `DataTransformer.extract_categories`: a keyword classifier over a fixed
    table of nine categories, kept in the table's order. */
module Categories {
  import opened Text

  datatype Category =
    | Politician | Scientist | Artist | Explorer | Military
    | Philosopher | Inventor | Religious | Royalty

  /** The category table in its declaration order, which is the order of
      the result. */
  const AllCategories: seq<Category> :=
    [Politician, Scientist, Artist, Explorer, Military, Philosopher, Inventor, Religious, Royalty]

  function Label(c: Category): string {
    match c
    case Politician => "Politician"
    case Scientist => "Scientist"
    case Artist => "Artist"
    case Explorer => "Explorer"
    case Military => "Military"
    case Philosopher => "Philosopher"
    case Inventor => "Inventor"
    case Religious => "Religious"
    case Royalty => "Royalty"
  }

  /** No two categories share a label. */
  lemma LabelInjective(a: Category, b: Category)
    ensures Label(a) == Label(b) <==> a == b
  {
  }

  function Keywords(c: Category): seq<string> {
    match c
    case Politician => ["politician", "president", "prime minister", "minister", "governor", "mayor"]
    case Scientist => ["scientist", "physicist", "chemist", "biologist", "mathematician", "researcher"]
    case Artist => ["artist", "painter", "sculptor", "musician", "composer", "writer", "poet", "novelist"]
    case Explorer => ["explorer", "navigator", "adventurer", "discoverer"]
    case Military => ["general", "admiral", "soldier", "commander", "military"]
    case Philosopher => ["philosopher", "thinker", "philosophy"]
    case Inventor => ["inventor", "invention", "patent", "engineer"]
    case Religious => ["priest", "bishop", "pope", "monk", "religious", "saint"]
    case Royalty => ["king", "queen", "emperor", "empress", "prince", "princess", "royal"]
  }

  /** The position of a category in the table. */
  function Rank(c: Category): (k: nat)
    ensures k < |AllCategories| && AllCategories[k] == c
  {
    match c
    case Politician => 0
    case Scientist => 1
    case Artist => 2
    case Explorer => 3
    case Military => 4
    case Philosopher => 5
    case Inventor => 6
    case Religious => 7
    case Royalty => 8
  }

  /** `any(keyword in lowered for keyword in keywords)`. */
  predicate MentionsAny(keywords: seq<string>, lowered: string) {
    exists k :: k in keywords && IsInfix(k, lowered)
  }

  /** Category `c` applies to `text`: one of its keywords occurs in the
      lower-cased text. */
  predicate Applies(c: Category, text: string) {
    MentionsAny(Keywords(c), Lower(text))
  }

  /** The categories of `cs` whose keywords occur in `lowered`, in order. */
  function Select(cs: seq<Category>, lowered: string): (r: seq<Category>)
    ensures forall c :: c in r <==> c in cs && MentionsAny(Keywords(c), lowered)
    ensures |r| <= |cs|
  {
    if cs == [] then []
    else
      var rest := Select(cs[1..], lowered);
      if MentionsAny(Keywords(cs[0]), lowered) then [cs[0]] + rest else rest
  }

  /** A sequence of categories in strictly increasing table order: free of
      duplicates and a subsequence of the table. */
  predicate InTableOrder(r: seq<Category>) {
    forall i, j :: 0 <= i < j < |r| ==> Rank(r[i]) < Rank(r[j])
  }

  /** Filtering keeps table order. */
  lemma {:induction false} SelectInOrder(cs: seq<Category>, lowered: string)
    requires InTableOrder(cs)
    ensures InTableOrder(Select(cs, lowered))
  {
    if cs != [] {
      var rest := Select(cs[1..], lowered);
      SelectInOrder(cs[1..], lowered);
      if MentionsAny(Keywords(cs[0]), lowered) {
        HeadBelowTail(cs);
        ConsInOrder(cs[0], rest);
        assert Select(cs, lowered) == [cs[0]] + rest;
      } else {
        assert Select(cs, lowered) == rest;
      }
    }
  }

  /** In table order, the head ranks below everything after it. */
  lemma HeadBelowTail(cs: seq<Category>)
    requires cs != [] && InTableOrder(cs)
    ensures forall x :: x in cs[1..] ==> Rank(cs[0]) < Rank(x)
  {
    forall x | x in cs[1..] ensures Rank(cs[0]) < Rank(x) {
      var j :| 0 <= j < |cs[1..]| && cs[1..][j] == x;
      assert cs[j + 1] == x;
    }
  }

  /** A category ranked below all of an ordered sequence can go in front. */
  lemma ConsInOrder(c: Category, rest: seq<Category>)
    requires InTableOrder(rest)
    requires forall x :: x in rest ==> Rank(c) < Rank(x)
    ensures InTableOrder([c] + rest)
  {
    var r := [c] + rest;
    forall i, j | 0 <= i < j < |r| ensures Rank(r[i]) < Rank(r[j]) {
      assert r[j] == rest[j - 1];
      if i > 0 {
        assert r[i] == rest[i - 1];
      } else {
        assert r[j] in rest;
      }
    }
  }

  lemma TableInOrder()
    ensures InTableOrder(AllCategories)
  {
    forall i | 0 <= i < |AllCategories| ensures Rank(AllCategories[i]) == i {
    }
  }

  /** `extract_categories(text)`: empty text has no category; otherwise a
      category is listed exactly when one of its keywords occurs in the
      lower-cased text, in table order and at most once. */
  function ExtractCategories(text: string): (r: seq<Category>)
    ensures text == "" ==> r == []
    ensures forall c :: c in r <==> Applies(c, text)
    ensures InTableOrder(r)
    ensures |r| <= |AllCategories|
  {
    if text == "" then []
    else
      TableInOrder();
      SelectInOrder(AllCategories, Lower(text));
      forall c ensures c in AllCategories {
        assert AllCategories[Rank(c)] == c;
      }
      Select(AllCategories, Lower(text))
  }

  /** Table order leaves no room for duplicates. */
  lemma InTableOrderDistinct(r: seq<Category>)
    requires InTableOrder(r)
    ensures forall i, j :: 0 <= i < j < |r| ==> r[i] != r[j]
  {
  }

  /** Extending the text never loses a category: categories are monotone
      in the substring order. */
  lemma CategoriesMonotone(a: string, b: string)
    requires IsInfix(a, b)
    ensures forall c :: c in ExtractCategories(a) ==> c in ExtractCategories(b)
  {
    forall c | c in ExtractCategories(a) ensures c in ExtractCategories(b) {
      var k :| k in Keywords(c) && IsInfix(k, Lower(a));
      LowerInfix(a, b);
      InfixTransitive(k, Lower(a), Lower(b));
    }
  }
}
