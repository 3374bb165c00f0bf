/** The dish document: field defaults and bounds, schema validation, and the
    pre-save hook that clamps the rating into [0, 5]. */
module DishModel {
  import opened Wrappers
  import Text

  type Id = string

  const MaxNameLength := 150
  const MaxDescriptionLength := 1000
  const MinRating: real := 0.0
  const MaxRating: real := 5.0

  /** A stored dish, as the catalogue holds it. */
  datatype Dish = Dish(
    id: Id, restaurantId: Id, categoryId: Option<Id>, name: string,
    description: string, price: real, image: string, rating: real,
    isAvailable: bool, favoriteCount: int)

  /** The rule of the pre-save hook: below 0 becomes 0, above 5 becomes 5. */
  function ClampRating(rating: real): (c: real)
    ensures MinRating <= c <= MaxRating
    ensures MinRating <= rating <= MaxRating ==> c == rating
    ensures rating < MinRating ==> c == MinRating
    ensures rating > MaxRating ==> c == MaxRating
  {
    if rating < MinRating then MinRating else if rating > MaxRating then MaxRating else rating
  }

  /** Clamping an already clamped rating changes nothing. */
  lemma ClampIdempotent(rating: real)
    ensures ClampRating(ClampRating(rating)) == ClampRating(rating)
  {
  }

  /** The schema's validators, one per rule of the dish schema. */
  datatype SchemaError =
    | RestaurantRequired | NameRequired | NameTooLong | DescriptionTooLong
    | PriceRequired | PriceNegative | RatingBelowMin | RatingAboveMax
    | FavoriteCountNegative

  const AllSchemaErrors: set<SchemaError> := {
    RestaurantRequired, NameRequired, NameTooLong, DescriptionTooLong, PriceRequired,
    PriceNegative, RatingBelowMin, RatingAboveMax, FavoriteCountNegative }

  /** The list above names every validator. */
  lemma AllListed()
    ensures forall e: SchemaError :: e in AllSchemaErrors
  {
    forall e: SchemaError
      ensures e in AllSchemaErrors
    {
      match e
      case RestaurantRequired =>
      case NameRequired =>
      case NameTooLong =>
      case DescriptionTooLong =>
      case PriceRequired =>
      case PriceNegative =>
      case RatingBelowMin =>
      case RatingAboveMax =>
      case FavoriteCountNegative =>
    }
  }

  /** A dish document being built or edited before it is saved. */
  class DishDocument {
    const id: Id
    var restaurantId: Option<Id>
    var categoryId: Option<Id>
    var name: string
    var description: string
    var price: Option<real>
    var image: string
    var rating: real
    var isAvailable: bool
    var favoriteCount: int

    /** A new document with the schema defaults; string fields are trimmed on
        assignment, as the schema's `trim` option does. */
    constructor (id: Id, restaurantId: Option<Id>, name: string, price: Option<real>)
      ensures this.id == id && this.restaurantId == restaurantId
      ensures this.name == Text.Trim(name) && this.price == price
      ensures categoryId == None && description == "" && image == ""
      ensures rating == 0.0 && isAvailable && favoriteCount == 0
    {
      this.id := id;
      this.restaurantId := restaurantId;
      this.name := Text.Trim(name);
      this.price := price;
      categoryId := None;
      description := "";
      image := "";
      rating := 0.0;
      isAvailable := true;
      favoriteCount := 0;
    }

    /** The rule of each schema validator, failing on the current fields. */
    predicate Fails(e: SchemaError)
      reads this
    {
      match e
      case RestaurantRequired => restaurantId.None?
      case NameRequired => name == ""
      case NameTooLong => Text.Utf16Length(name) > MaxNameLength
      case DescriptionTooLong => Text.Utf16Length(description) > MaxDescriptionLength
      case PriceRequired => price.None?
      case PriceNegative => price.Some? && price.value < 0.0
      case RatingBelowMin => rating < MinRating
      case RatingAboveMax => rating > MaxRating
      case FavoriteCountNegative => favoriteCount < 0
    }

    /** Every validator that fails on the current field values; Mongoose
        reports all of them, not only the first. */
    function Violations(): (errs: set<SchemaError>)
      reads this
      ensures forall e :: e in errs <==> Fails(e)
      ensures RestaurantRequired in errs <==> restaurantId.None?
      ensures NameRequired in errs <==> name == ""
      ensures NameTooLong in errs <==> Text.Utf16Length(name) > MaxNameLength
      ensures DescriptionTooLong in errs <==> Text.Utf16Length(description) > MaxDescriptionLength
      ensures PriceRequired in errs <==> price.None?
      ensures PriceNegative in errs <==> price.Some? && price.value < 0.0
      ensures RatingBelowMin in errs <==> rating < MinRating
      ensures RatingAboveMax in errs <==> rating > MaxRating
      ensures FavoriteCountNegative in errs <==> favoriteCount < 0
    {
      AllListed();
      set e | e in AllSchemaErrors && Fails(e)
    }

    /** The user-defined `pre("save")` hook: clamps `rating` in place. */
    method ClampRatingHook()
      modifies this
      ensures rating == ClampRating(old(rating))
      ensures restaurantId == old(restaurantId) && categoryId == old(categoryId)
      ensures name == old(name) && description == old(description) && price == old(price)
      ensures image == old(image) && isAvailable == old(isAvailable)
      ensures favoriteCount == old(favoriteCount)
    {
      if rating < 0.0 {
        rating := 0.0;
      }
      if rating > 5.0 {
        rating := 5.0;
      }
    }

    /** The stored form of a document that passed validation. */
    function Record(): (d: Dish)
      reads this
      requires Violations() == {}
      ensures d.id == id && d.name == name && d.rating == rating
      ensures MinRating <= d.rating <= MaxRating && d.price >= 0.0
      ensures 0 < |d.name| <= Text.Utf16Length(d.name) <= MaxNameLength
      ensures |d.description| <= Text.Utf16Length(d.description) <= MaxDescriptionLength
    {
      Dish(id, restaurantId.value, categoryId, name, description, price.value,
           image, rating, isAvailable, favoriteCount)
    }

    /** `save()`: the schema validators run first (Mongoose registers
        validation as the first save hook), then the rating hook; a failed
        validation rejects the save with every failing validator. */
    method Save() returns (r: Result<Dish, set<SchemaError>>)
      modifies this
      ensures rating == old(rating)
      ensures restaurantId == old(restaurantId) && categoryId == old(categoryId)
      ensures name == old(name) && description == old(description) && price == old(price)
      ensures image == old(image) && isAvailable == old(isAvailable)
      ensures favoriteCount == old(favoriteCount)
      ensures Violations() == old(Violations())
      ensures old(Violations()) != {} ==> r == Failure(old(Violations()))
      ensures old(Violations()) == {} ==> r.Success? && r.value == Record()
    {
      var errs := Violations();
      if errs != {} {
        return Failure(errs);
      }
      ClampRatingHook();
      SavedRatingIsInRange(rating);
      r := Success(Record());
    }
  }

  /** A rating that passed validation is already in [0, 5], so on every save
      that succeeds the clamping hook leaves it as it was. */
  lemma SavedRatingIsInRange(rating: real)
    requires MinRating <= rating <= MaxRating
    ensures ClampRating(rating) == rating
  {
  }
}
