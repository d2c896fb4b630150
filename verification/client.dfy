/** The pure decisions of the web client (`client/src/App.tsx`): the category buttons and the card
    filter of the selection screen, the guards on the name and greeting inputs, how the admin
    dashboard reacts to 401 and 403 replies, and which screen the hash router shows. */
module Client {
  import opened Common
  import Seqs
  import Strings

  /** A card as the client keeps it from `GET /cards`. */
  datatype Card = Card(id: int, name: string, imagePath: string, category: string)

  const All := "All"

  // ---------------------------------------------------------------- selection screen

  function CategoryColumn(cards: seq<Card>): (cs: seq<string>)
    ensures |cs| == |cards| && forall i :: 0 <= i < |cards| ==> cs[i] == cards[i].category
  {
    seq(|cards|, i requires 0 <= i < |cards| => cards[i].category)
  }

  /** The category buttons: "All", then each category once. */
  function Categories(cards: seq<Card>): (cats: seq<string>)
    ensures |cats| >= 1 && cats[0] == All
    ensures forall x :: x in cats[1..] <==> x in CategoryColumn(cards)
    ensures forall k, m :: 1 <= k < m < |cats| ==> cats[k] != cats[m]
  {
    var d := Seqs.Distinct(CategoryColumn(cards));
    assert ([All] + d)[1..] == d;
    [All] + d
  }

  /** Every card's category has a button. */
  lemma EveryCategoryListed(cards: seq<Card>)
    ensures forall i :: 0 <= i < |cards| ==> cards[i].category in Categories(cards)[1..]
  {
    var column := CategoryColumn(cards);
    forall i | 0 <= i < |cards|
      ensures cards[i].category in Categories(cards)[1..]
    {
      assert column[i] in column;
    }
  }

  /** The buttons come in order of first appearance: a category listed before another first
      appears among the cards before the other does. */
  lemma CategoriesInFirstAppearanceOrder(cards: seq<Card>, k: nat, m: nat, i: nat)
    requires 1 <= k < m < |Categories(cards)| && i < |cards| && cards[i].category == Categories(cards)[m]
    ensures exists j :: 0 <= j < i && cards[j].category == Categories(cards)[k]
  {
    var column := CategoryColumn(cards);
    var d := Seqs.Distinct(column);
    assert Categories(cards) == [All] + d;
    assert column[i] == d[m - 1];
    assert d[k - 1] in column[..i];
    var j :| 0 <= j < i && column[..i][j] == d[k - 1];
  }

  /** The cards shown for the selected filter: all of them for "All", else those of that category,
      in their original order. */
  function FilterCards(cards: seq<Card>, filter: string): (shown: seq<Card>)
    ensures filter == All ==> shown == cards
    ensures filter != All ==> forall c :: c in shown <==> c in cards && c.category == filter
  {
    if filter == All then cards else Seqs.Filter(cards, (c: Card) => c.category == filter)
  }

  /** Filtering keeps the cards' relative order: filtering a concatenation filters each part. */
  lemma FilterKeepsOrder(a: seq<Card>, b: seq<Card>, filter: string)
    ensures FilterCards(a + b, filter) == FilterCards(a, filter) + FilterCards(b, filter)
  {
    if filter != All {
      Seqs.FilterConcat(a, b, (c: Card) => c.category == filter);
    }
  }

  /** Every category button other than "All" shows at least one card, and only cards of that category. */
  lemma EveryButtonShowsCards(cards: seq<Card>, k: nat)
    requires 1 <= k < |Categories(cards)| && Categories(cards)[k] != All
    ensures |FilterCards(cards, Categories(cards)[k])| >= 1
    ensures forall c :: c in FilterCards(cards, Categories(cards)[k]) ==> c.category == Categories(cards)[k]
  {
    var cat := Categories(cards)[k];
    assert cat in Categories(cards)[1..];
    var i :| 0 <= i < |cards| && CategoryColumn(cards)[i] == cat;
    assert cards[i] in FilterCards(cards, cat);
  }

  /** A card whose category is literally "All" adds a second "All" button, and that button shows
      every card rather than only that category. */
  lemma CategoryNamedAllShowsEverything(cards: seq<Card>, i: nat)
    requires i < |cards| && cards[i].category == All
    ensures All in Categories(cards)[1..]
    ensures FilterCards(cards, cards[i].category) == cards
  {
    assert CategoryColumn(cards)[i] == All;
  }

  // ---------------------------------------------------------------- input guards

  /** The body of `POST /api/generate`: the card's id, the name as typed, the selected greeting
      ("" when none is chosen). */
  datatype GenerateBody = GenerateBody(cardId: int, userName: string, greeting: string)

  /** `handleGenerate`: nothing is sent when the name is blank; otherwise the untrimmed name is. */
  function GenerateAction(card: Card, name: string, greeting: string): (r: Option<GenerateBody>)
    ensures r.None? <==> Strings.AllSpace(name)
    ensures r.Some? ==> r.value == GenerateBody(card.id, name, greeting)
  {
    Strings.TrimEmptyIffBlank(name);
    if Strings.Trim(name) == "" then None else Some(GenerateBody(card.id, name, greeting))
  }

  /** The generate button is enabled only for a non-blank name while no request is running. */
  function GenerateEnabled(name: string, generating: bool): (enabled: bool)
    ensures enabled <==> !Strings.AllSpace(name) && !generating
  {
    Strings.TrimEmptyIffBlank(name);
    Strings.Trim(name) != "" && !generating
  }

  /** An enabled button never leads to a blank request: clicking it always sends the body. */
  lemma EnabledButtonSends(card: Card, name: string, greeting: string)
    requires GenerateEnabled(name, false)
    ensures GenerateAction(card, name, greeting).Some?
  {
  }

  /** `handleAddGreeting`: nothing is sent for a blank input; otherwise the untrimmed text is. */
  function AddGreetingAction(input: string): (r: Option<string>)
    ensures r.None? <==> Strings.AllSpace(input)
    ensures r.Some? ==> r.value == input && r.value != ""
  {
    Strings.TrimEmptyIffBlank(input);
    if Strings.Trim(input) == "" then None else Some(input)
  }

  // ---------------------------------------------------------------- authFetch

  /** How the admin dashboard's `authFetch` treats a reply. */
  datatype Reaction = SessionExpired | AccessDenied(message: string) | PassThrough(status: int)

  const DeniedMessage := "Access Denied: Admins Only"

  function AuthFetch(status: int): (r: Reaction)
    ensures r == SessionExpired <==> status == 401
    ensures r.AccessDenied? <==> status == 403
    ensures r.AccessDenied? ==> r.message == DeniedMessage
    ensures r.PassThrough? ==> r.status == status
  {
    if status == 401 then SessionExpired
    else if status == 403 then AccessDenied(DeniedMessage)
    else PassThrough(status)
  }

  // ---------------------------------------------------------------- routing

  /** The state `App` routes on: the stored token, the location hash, the chosen card. */
  datatype AppState = AppState(token: Option<string>, route: string, selected: Option<Card>)

  datatype Screen = Login | AdminDashboard | Personalize(card: Card) | Selection

  /** The screen `App` renders. */
  function ScreenOf(st: AppState): (sc: Screen)
    ensures sc == Login <==> !TruthyText(st.token)
    ensures sc == AdminDashboard <==> TruthyText(st.token) && st.route == "#admin"
    ensures sc.Personalize? <==> TruthyText(st.token) && st.route != "#admin" && st.selected.Some?
    ensures sc.Personalize? ==> sc.card == st.selected.value
    ensures sc == Selection <==> TruthyText(st.token) && st.route != "#admin" && st.selected.None?
  {
    if !TruthyText(st.token) then Login
    else if st.route == "#admin" then AdminDashboard
    else if st.selected.Some? then Personalize(st.selected.value)
    else Selection
  }

  /** `handleLogin`: the token is kept. */
  function SignIn(st: AppState, t: string): AppState {
    st.(token := Some(t))
  }

  /** `handleLogout`: the token is dropped and the hash cleared; the chosen card is kept. */
  function SignOut(st: AppState): (r: AppState)
    ensures r.token.None? && r.route == "" && r.selected == st.selected
  {
    st.(token := None, route := "")
  }

  /** What the app does with a dashboard reply: a 401 signs out, anything else keeps the state
      (a 403 only changes the dashboard's own error text). */
  function AfterReply(st: AppState, status: int): (r: AppState)
    ensures status == 401 ==> ScreenOf(r) == Login
    ensures status != 401 ==> r == st
  {
    match AuthFetch(status)
    case SessionExpired => SignOut(st)
    case _ => st
  }

  /** Signing out and in again leaves the dashboard: the next screen is the chosen card, or the
      selection when none was chosen. */
  lemma SignInAfterSignOut(st: AppState, t: string)
    requires t != ""
    ensures ScreenOf(SignIn(SignOut(st), t)) == (if st.selected.Some? then Personalize(st.selected.value) else Selection)
  {
  }
}
