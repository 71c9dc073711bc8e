/**
 * The fixed vocabulary of the balance wheel: the six life categories in
 * their declared order, the colours the pie chart may use, and the shape of
 * one saved snapshot.
 */
module Wheel {

  datatype Option<T> = None | Some(value: T)

  datatype Category = Physical | Emotional | Professional | Creativity | Financial | Adventures

  /** The declared order of the categories; every per-category list follows it. */
  const Categories: seq<Category> := [Physical, Emotional, Professional, Creativity, Financial, Adventures]

  /** Lowest and highest value a rating slider offers. */
  const MinRating: int := 0
  const MaxRating: int := 10

  /** The colours the chart is drawn with: the two highlights and the six base colours. */
  datatype Color = Green | Red | Blue | Yellow | Purple | Teal | Grey | Orange

  /** The fixed colour of a category, used when its rating is neither the highest nor the lowest. */
  function BaseColor(c: Category): (col: Color)
    ensures col != Green && col != Red
  {
    match c
    case Physical => Blue
    case Emotional => Yellow
    case Professional => Purple
    case Creativity => Teal
    case Financial => Grey
    case Adventures => Orange
  }

  /** The declared order lists every category. */
  lemma AllCategoriesListed()
    ensures forall c: Category :: c in Categories
  {
    forall c: Category ensures c in Categories {
      assert Categories[IndexOf(c)] == c;
    }
  }

  /** Position of a category in the declared order. */
  function IndexOf(c: Category): (i: nat)
    ensures i < |Categories| && Categories[i] == c
    ensures forall j :: 0 <= j < |Categories| && Categories[j] == c ==> j == i
  {
    match c
    case Physical => 0
    case Emotional => 1
    case Professional => 2
    case Creativity => 3
    case Financial => 4
    case Adventures => 5
  }

  /**
   * What one snapshot stores for one category. Both fields are optional
   * because a history read back from an imported file is not checked against
   * the schema; a snapshot written by Save always has both.
   */
  datatype Entry = Entry(rating: Option<int>, note: Option<string>)

  /** One saved snapshot: the entry of each category it mentions. */
  type Snapshot = map<Category, Entry>

  /** A snapshot as the form writes it: every category, both fields, ratings on the slider's scale. */
  ghost predicate WellFormed(s: Snapshot)
  {
    forall c: Category ::
      c in s && s[c].rating.Some? && s[c].note.Some? && MinRating <= s[c].rating.value <= MaxRating
  }
}
