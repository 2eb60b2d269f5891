/**
 * The post editor: a recipe name, a description and an editable list of
 * ingredient lines, loaded from the server and submitted back.
 */
module EditPost {
  import opened Wrappers
  import opened Lists

  /** The editor's three pieces of state. */
  datatype EditForm = EditForm(recipeName: string, description: string, ingredients: seq<string>)

  /** The form before anything is loaded. */
  const EmptyForm := EditForm("", "", [])

  /**
   * One element of the server's `items` array. `ingredients` is `None`
   * when that property is not an array, so that `.map` on it throws.
   */
  datatype Item = Item(title: string, recipe: string, ingredients: Option<seq<string>>)

  /** `response.data`: `Falsy` when it is null, undefined or otherwise falsy; `items` is `None` when it is not an array. */
  datatype ReplyData = Falsy | Body(items: Option<seq<Item>>)

  /** The outcome of the load request: it either fails (the promise rejects) or delivers data. */
  datatype LoadReply = LoadFailed | Loaded(data: ReplyData)

  /** An item after the projection `{ title, description: item.Recipe, ingredients }`. */
  datatype Projected = Projected(title: string, description: string, ingredients: seq<string>)

  /**
   * `response.data.items.map(...)`: projects every item, and throws as soon
   * as one item's `ingredients` is not an array.
   */
  function ProjectItems(items: seq<Item>): (r: Result<seq<Projected>>)
    ensures r.Ok? <==> forall k :: 0 <= k < |items| ==> items[k].ingredients.Some?
    ensures r.Ok? ==> |r.value| == |items|
    ensures r.Ok? ==> forall k :: 0 <= k < |items| ==>
              r.value[k] == Projected(items[k].title, items[k].recipe, items[k].ingredients.value)
    decreases |items|
  {
    if items == [] then Ok([])
    else if items[0].ingredients.None? then Err("TypeError: item.ingredients.map is not a function")
    else
      match ProjectItems(items[1..])
      case Err(m) => Err(m)
      case Ok(rest) =>
        var p := Projected(items[0].title, items[0].recipe, items[0].ingredients.value);
        assert forall k :: 1 <= k < |items| ==> items[k] == items[1..][k - 1];
        Ok([p] + rest)
  }

  /** An `items` array the projection gets through and whose first element exists. */
  predicate Loadable(items: seq<Item>) {
    |items| > 0 && forall k :: 0 <= k < |items| ==> items[k].ingredients.Some?
  }

  /** `!postId`: the route parameter is missing or the empty string. */
  predicate PostIdMissing(postId: Option<string>) {
    postId.None? || postId.value == ""
  }

  /**
   * `fetchData(postId)`: with a route id and a reply whose `items` array can
   * be projected and is non-empty, the form takes the first item's title,
   * `Recipe` text and ingredients. Every other path (no id, failed request,
   * falsy data, `items` not an array, an empty array read at `items[0]`, a
   * later item without an ingredients array) leaves the form as it was.
   */
  function FetchData(f: EditForm, postId: Option<string>, reply: LoadReply): (r: EditForm)
    ensures PostIdMissing(postId) ==> r == f
    ensures !PostIdMissing(postId) && reply.Loaded? && reply.data.Body? && reply.data.items.Some?
            && Loadable(reply.data.items.value) ==>
              var first := reply.data.items.value[0];
              r == EditForm(first.title, first.recipe, first.ingredients.value)
    ensures r != f ==> !PostIdMissing(postId) && reply.Loaded? && reply.data.Body?
                       && reply.data.items.Some? && Loadable(reply.data.items.value)
  {
    if PostIdMissing(postId) then f
    else match reply
      case LoadFailed => f
      case Loaded(Falsy) => f
      case Loaded(Body(None)) => f
      case Loaded(Body(Some(items))) =>
        match ProjectItems(items)
        case Err(_) => f
        case Ok(projected) =>
          if |projected| == 0 then f  // `items[0].title` throws on an empty array
          else EditForm(projected[0].title, projected[0].description, projected[0].ingredients)
  }

  /** Items after the first never reach the form, provided they can be projected. */
  lemma LaterItemsIgnored(f: EditForm, id: string, first: Item, rest1: seq<Item>, rest2: seq<Item>)
    requires id != ""
    requires Loadable([first] + rest1) && Loadable([first] + rest2)
    ensures FetchData(f, Some(id), Loaded(Body(Some([first] + rest1))))
         == FetchData(f, Some(id), Loaded(Body(Some([first] + rest2))))
  {
  }

  /** A later item whose ingredients are not an array makes the whole load throw, so nothing changes. */
  lemma MalformedLaterItemAbortsLoad(f: EditForm, id: string, first: Item, bad: Item)
    requires id != "" && first.ingredients.Some? && bad.ingredients.None?
    ensures FetchData(f, Some(id), Loaded(Body(Some([first, bad])))) == f
  {
    assert [first, bad][1].ingredients.None?;
  }

  /** `handleIngredientChange(index, e)`: line `index` takes the typed value; nothing else changes. */
  function ChangeIngredient(f: EditForm, index: int, value: string): (r: EditForm)
    requires 0 <= index < |f.ingredients|
    ensures |r.ingredients| == |f.ingredients|
    ensures r.ingredients[index] == value
    ensures forall k :: 0 <= k < |f.ingredients| && k != index ==> r.ingredients[k] == f.ingredients[k]
    ensures r.recipeName == f.recipeName && r.description == f.description
  {
    f.(ingredients := f.ingredients[index := value])
  }

  /** `addIngredientField`: one more, empty, line at the end. */
  function AddIngredientField(f: EditForm): (r: EditForm)
    ensures |r.ingredients| == |f.ingredients| + 1
    ensures r.ingredients[..|f.ingredients|] == f.ingredients && r.ingredients[|f.ingredients|] == ""
    ensures r.recipeName == f.recipeName && r.description == f.description
  {
    f.(ingredients := f.ingredients + [""])
  }

  /** The "×" button of line `index`: the other lines stay, in their order. */
  function RemoveIngredient(f: EditForm, index: int): (r: EditForm)
    requires 0 <= index < |f.ingredients|
    ensures |r.ingredients| == |f.ingredients| - 1
    ensures forall k :: 0 <= k < index ==> r.ingredients[k] == f.ingredients[k]
    ensures forall k :: index < k < |f.ingredients| ==> r.ingredients[k - 1] == f.ingredients[k]
    ensures r.recipeName == f.recipeName && r.description == f.description
  {
    f.(ingredients := RemoveIndex(f.ingredients, index))
  }

  /** Interactions with the editor; indices are those of the rendered lines. */
  datatype UiAction =
    | TypeName(name: string)
    | TypeDescription(text: string)
    | TypeIngredient(index: int, value: string)
    | AddField
    | RemoveField(index: int)

  /**
   * Whether the control behind `a` is on screen: every line has its input,
   * but the "×" buttons are rendered only while there is more than one line.
   */
  predicate Available(f: EditForm, a: UiAction) {
    match a
    case TypeIngredient(i, _) => 0 <= i < |f.ingredients|
    case RemoveField(i) => |f.ingredients| > 1 && 0 <= i < |f.ingredients|
    case _ => true
  }

  /** One interaction, or `None` when its control is not rendered. */
  function Step(f: EditForm, a: UiAction): (r: Option<EditForm>)
    ensures r.Some? <==> Available(f, a)
    ensures r.Some? && |f.ingredients| >= 1 ==> |r.value.ingredients| >= 1
  {
    if !Available(f, a) then None
    else match a
      case TypeName(v) => Some(f.(recipeName := v))
      case TypeDescription(v) => Some(f.(description := v))
      case TypeIngredient(i, v) => Some(ChangeIngredient(f, i, v))
      case AddField => Some(AddIngredientField(f))
      case RemoveField(i) => Some(RemoveIngredient(f, i))
  }

  /** A session of interactions; `None` if some interaction used a control that was not on screen. */
  function Run(f: EditForm, actions: seq<UiAction>): Option<EditForm>
    decreases |actions|
  {
    if actions == [] then Some(f)
    else match Step(f, actions[0])
      case None => None
      case Some(g) => Run(g, actions[1..])
  }

  /** Because of the render guard, a list with at least one line never loses its last one. */
  lemma {:induction false} RunKeepsAnIngredient(f: EditForm, actions: seq<UiAction>)
    requires |f.ingredients| >= 1
    ensures Run(f, actions).Some? ==> |Run(f, actions).value.ingredients| >= 1
    decreases |actions|
  {
    if actions != [] {
      var s := Step(f, actions[0]);
      if s.Some? {
        RunKeepsAnIngredient(s.value, actions[1..]);
      }
    }
  }

  /** The JSON body value of one submitted field. */
  datatype Field = Text(text: string) | Lines(lines: seq<string>)

  /** The three keys the update request sends. */
  const SubmitKeys: set<string> := {"recipeName", "description", "ingredients"}

  /** `handleSubmit`'s `formData`: exactly three keys, each carrying the current state. */
  function SubmitBody(f: EditForm): (m: map<string, Field>)
    ensures m.Keys == SubmitKeys
    ensures m["recipeName"] == Text(f.recipeName) && m["description"] == Text(f.description)
    ensures m["ingredients"] == Lines(f.ingredients)
  {
    map["recipeName" := Text(f.recipeName), "description" := Text(f.description),
        "ingredients" := Lines(f.ingredients)]
  }

  /** The body loses nothing: different forms are submitted as different bodies. */
  lemma SubmitBodyInjective(f: EditForm, g: EditForm)
    requires SubmitBody(f) == SubmitBody(g)
    ensures f == g
  {
    assert SubmitBody(f)["ingredients"] == SubmitBody(g)["ingredients"];
  }
}
