/**
 * The page and navigation assembly of scripts/generate_site.js. The script
 * builds six static pages from fixed templates; it reads neither the site
 * configuration nor the prompt. A document is modelled as the sequence of its
 * parts; the stylesheet, icons, modal, footer and inline script are constant
 * markup and appear as parts without contents.
 */
module Site {
  import opened Text

  // ---------- hrefFor ----------

  /** The link target of a page or account-menu name. */
  function HrefFor(name: string): (r: string)
    ensures r == "#" || (|r| > 5 && r[|r| - 5..] == ".html")
  {
    match name
    case "Home" => "index.html"
    case "About Us" => "about.html"
    case "Services & Pricing" => "services.html"
    case "Shop" => "shop.html"
    case "Get Involved" => "get-involved.html"
    case "Cart" => "cart.html"
    case "Orders" => "#"
    case "Bookings" => "#"
    case "Payments" => "#"
    case _ => "index.html"
  }

  /** The six names that have a page of their own. */
  const PageNames: seq<string> := ["Home", "About Us", "Services & Pricing", "Shop", "Get Involved", "Cart"]

  /** The account-menu names, which have no page yet. */
  const AccountNames: seq<string> := ["Orders", "Bookings", "Payments"]

  /** The page a file belongs to: the inverse of `HrefFor` on the six pages. */
  function PageOfFile(file: string): Option<string>
  {
    match file
    case "index.html" => Some("Home")
    case "about.html" => Some("About Us")
    case "services.html" => Some("Services & Pricing")
    case "shop.html" => Some("Shop")
    case "get-involved.html" => Some("Get Involved")
    case "cart.html" => Some("Cart")
    case _ => None
  }

  /** Each page name leads to its own file, which leads back to it; so the six files are distinct. */
  lemma HrefForPages(name: string)
    ensures name in PageNames <==> PageOfFile(HrefFor(name)) == Some(name)
    ensures name in PageNames ==> HrefFor(name) != "#"
  {
  }

  lemma HrefForDistinct(i: nat, j: nat)
    requires i < |PageNames| && j < |PageNames| && i != j
    ensures HrefFor(PageNames[i]) != HrefFor(PageNames[j])
  {
    HrefForPages(PageNames[i]);
    HrefForPages(PageNames[j]);
  }

  /** The account entries lead nowhere; every name that is neither a page nor an account entry leads home. */
  lemma HrefForOthers(name: string)
    ensures HrefFor(name) == "#" <==> name in AccountNames
    ensures name !in PageNames && name !in AccountNames ==> HrefFor(name) == HrefFor("Home")
  {
  }

  // ---------- headerHTML ----------

  /** A primary-nav link: its target, its class attribute and its text. */
  datatype Link = Link(href: string, cls: string, caption: string)

  /** A plain link of the account or mobile menu. */
  datatype Anchor = Anchor(href: string, caption: string)

  /** The five primary-nav labels, in the order the header lists them. */
  const NavLabels: seq<string> := ["Home", "About Us", "Services & Pricing", "Shop", "Get Involved"]

  /** `is(t)`: the link to `t`, with class `on` when `t` is the active label. */
  function NavLink(active: string, t: string): Link
  {
    Link(HrefFor(t), if active == t then "on" else "", t)
  }

  /** The `nav-center` links. */
  function PrimaryNav(active: string): seq<Link>
  {
    [NavLink(active, "Home"), NavLink(active, "About Us"), NavLink(active, "Services & Pricing"),
     NavLink(active, "Shop"), NavLink(active, "Get Involved")]
  }

  /** The `mobile-menu` links, written out separately in the template. */
  function MobileMenu(): seq<Anchor>
  {
    [Anchor(HrefFor("Home"), "Home"), Anchor(HrefFor("About Us"), "About Us"),
     Anchor(HrefFor("Services & Pricing"), "Services & Pricing"), Anchor(HrefFor("Shop"), "Shop"),
     Anchor(HrefFor("Get Involved"), "Get Involved")]
  }

  /** The account dropdown; its third entry is labelled differently from the name it links by. */
  function AccountMenu(): seq<Anchor>
  {
    [Anchor(HrefFor("Orders"), "Orders"), Anchor(HrefFor("Bookings"), "Bookings"),
     Anchor(HrefFor("Payments"), "Payment Methods")]
  }

  /** The account entries lead nowhere yet, and the third is labelled `Payment Methods`. */
  lemma AccountMenuPlaceholders()
    ensures |AccountMenu()| == |AccountNames|
    ensures forall i :: 0 <= i < |AccountMenu()| ==> AccountMenu()[i].href == "#"
    ensures forall i :: 0 <= i < |AccountMenu()| ==>
              (AccountMenu()[i].caption == AccountNames[i] <==> AccountNames[i] != "Payments")
  {
  }

  /** The links of `headerHTML(active)`; the logo, icons and buttons are constant markup. */
  datatype Header = Header(home: string, nav: seq<Link>, cart: string, account: seq<Anchor>, mobile: seq<Anchor>)

  function HeaderHTML(active: string): Header
  {
    Header(HrefFor("Home"), PrimaryNav(active), HrefFor("Cart"), AccountMenu(), MobileMenu())
  }

  /** How many links carry class `on`. */
  function OnCount(nav: seq<Link>): (r: nat)
    ensures r <= |nav|
  {
    if nav == [] then 0 else (if nav[0].cls == "on" then 1 else 0) + OnCount(nav[1..])
  }

  /** The label of the first link carrying class `on`, if any. */
  function Marked(nav: seq<Link>): (r: Option<string>)
    ensures r.Some? ==> exists i :: 0 <= i < |nav| && nav[i].cls == "on" && nav[i].caption == r.value
    ensures r.None? ==> forall i :: 0 <= i < |nav| ==> nav[i].cls != "on"
  {
    if nav == [] then None
    else if nav[0].cls == "on" then Some(nav[0].caption)
    else Marked(nav[1..])
  }

  /** The primary nav lists the five labels, each linked by `HrefFor`, and marks exactly the active one. */
  lemma NavMarksActive(active: string)
    ensures |PrimaryNav(active)| == |NavLabels|
    ensures forall i :: 0 <= i < |NavLabels| ==>
              PrimaryNav(active)[i].caption == NavLabels[i] &&
              PrimaryNav(active)[i].href == HrefFor(NavLabels[i]) &&
              (PrimaryNav(active)[i].cls == "on" <==> NavLabels[i] == active)
  {
  }

  /** At most one link is marked, and one is marked exactly when the active label is a nav label. */
  lemma AtMostOneMarked(active: string)
    ensures OnCount(PrimaryNav(active)) == if active in NavLabels then 1 else 0
    ensures Marked(PrimaryNav(active)) == if active in NavLabels then Some(active) else None
  {
  }

  /** The desktop nav and the mobile menu list the same pages in the same order with the same targets. */
  lemma MobileMatchesNav(active: string)
    ensures |MobileMenu()| == |PrimaryNav(active)|
    ensures forall i :: 0 <= i < |MobileMenu()| ==>
              MobileMenu()[i].href == PrimaryNav(active)[i].href &&
              MobileMenu()[i].caption == PrimaryNav(active)[i].caption
  {
  }

  /**
   * Headers for two active labels differ in the primary nav only, and there (by
   * `NavMarksActive`) only in the class attributes.
   */
  lemma HeaderOnlyMarksDiffer(a1: string, a2: string)
    ensures HeaderHTML(a1).(nav := []) == HeaderHTML(a2).(nav := [])
  {
  }

  // ---------- the page bodies ----------

  /** The six page bodies: constant markup, apart from the service cards of two of them. */
  datatype Main = HomeMain | AboutMain | ServicesMain | ShopMain | GetInvolvedMain | CartMain

  /** A service card of a `grid-3`. */
  datatype Card = Card(title: string, desc: string, price: string)

  /** The service cards of a page body, in order; the bodies without a grid have none. */
  function Grid(m: Main): seq<Card>
  {
    match m
    case HomeMain => [Card("Window Cleaning", "Streak-free residential & commercial.", "from $80"),
                      Card("Lawn & Garden", "Mowing, edging, hedges, tidy-ups.", "from $50/hr"),
                      Card("Dump Runs", "Rubbish & green waste removal.", "from $80/m³")]
    case ServicesMain => [Card("Window Cleaning", "Interior & exterior, frames & tracks.", "from $80"),
                          Card("Lawn & Garden", "Mowing, edging, hedges, tidy-ups.", "from $50/hr"),
                          Card("Dump Runs", "Rubbish & green waste removal.", "from $80/m³")]
    case _ => []
  }

  /** Both grids show the same services at the same prices; only the Window Cleaning text differs. */
  lemma GridsAgree()
    ensures |Grid(HomeMain)| == |Grid(ServicesMain)| == 3
    ensures forall i :: 0 <= i < 3 ==>
              Grid(HomeMain)[i].title == Grid(ServicesMain)[i].title &&
              Grid(HomeMain)[i].price == Grid(ServicesMain)[i].price &&
              (Grid(HomeMain)[i].desc == Grid(ServicesMain)[i].desc <==> Grid(HomeMain)[i].title != "Window Cleaning")
  {
  }

  // ---------- baseDoc ----------

  /** What follows the page title inside `<title>`. */
  const TitleSuffix: string := " — Buds at Work"

  /**
   * The parts of a document, in order. `Head` stands for the doctype, the head
   * with the given `<title>` text, the fixed theme colour and the stylesheet built
   * from fixed colours; `Script` for the inline script, which does not use the
   * active label, and the closing tags.
   */
  datatype Part = Head(title: string) | HeaderPart(header: Header) | MainPart(main: Main) | Footer | Modal | Script

  function TitleText(title: string): string
  {
    title + TitleSuffix
  }

  /** `baseDoc(title, active, mainHTML)`. */
  function BaseDoc(title: string, active: string, main: Main): seq<Part>
  {
    [Head(TitleText(title)), HeaderPart(HeaderHTML(active)), MainPart(main), Footer, Modal, Script]
  }

  /** Read a document back: its page title, its marked nav label and its body. */
  function Unbuild(d: seq<Part>): Option<(string, Option<string>, Main)>
  {
    if |d| == 6 && d[0].Head? && d[1].HeaderPart? && d[2].MainPart? && d[3..] == [Footer, Modal, Script] &&
       |d[0].title| >= |TitleSuffix| && d[0].title[|d[0].title| - |TitleSuffix|..] == TitleSuffix
    then Some((d[0].title[..|d[0].title| - |TitleSuffix|], Marked(d[1].header.nav), d[2].main))
    else None
  }

  /** A document gives back the title and body it was built from, and the active label when the nav has it. */
  lemma BaseDocUnbuild(title: string, active: string, main: Main)
    ensures Unbuild(BaseDoc(title, active, main)) ==
            Some((title, if active in NavLabels then Some(active) else None, main))
  {
    var d := BaseDoc(title, active, main);
    assert d[3..] == [Footer, Modal, Script];
    assert d[0].title[..|d[0].title| - |TitleSuffix|] == title;
    AtMostOneMarked(active);
  }

  /** Any two documents share their chrome: only the title, the nav marks and the body can differ. */
  lemma SharedChrome(t1: string, a1: string, m1: Main, t2: string, a2: string, m2: Main)
    ensures |BaseDoc(t1, a1, m1)| == |BaseDoc(t2, a2, m2)|
    ensures forall i :: 3 <= i < |BaseDoc(t1, a1, m1)| ==> BaseDoc(t1, a1, m1)[i] == BaseDoc(t2, a2, m2)[i]
    ensures BaseDoc(t1, a1, m1)[1].header.(nav := []) == BaseDoc(t2, a2, m2)[1].header.(nav := [])
    ensures t1 == t2 && a1 == a2 && m1 == m2 ==> BaseDoc(t1, a1, m1) == BaseDoc(t2, a2, m2)
  {
    HeaderOnlyMarksDiffer(a1, a2);
  }

  // ---------- the page table of main ----------

  /** One `writeFile(path.join(dist, file), baseDoc(title, active, main))` call. */
  datatype Build = Build(file: string, title: string, active: string, main: Main)

  const Builds: seq<Build> := [
    Build("index.html", "Home", "Home", HomeMain),
    Build("about.html", "About Us", "About Us", AboutMain),
    Build("services.html", "Services & Pricing", "Services & Pricing", ServicesMain),
    Build("shop.html", "Shop", "Shop", ShopMain),
    Build("get-involved.html", "Get Involved", "Get Involved", GetInvolvedMain),
    Build("cart.html", "Cart", "Home", CartMain)
  ]

  /** The files written, each with its document. */
  function SiteFiles(): seq<(string, seq<Part>)>
  {
    seq(|Builds|, i requires 0 <= i < |Builds| => (Builds[i].file, BaseDoc(Builds[i].title, Builds[i].active, Builds[i].main)))
  }

  /**
   * Six pages, one per page name and in the same order. Each is written to the file
   * `HrefFor` gives its title, and that file leads back to the title, so every page
   * link leads to a written file and no two pages share one.
   */
  lemma BuildsMatchHrefs(i: nat)
    requires i < |Builds|
    ensures |SiteFiles()| == |PageNames| == 6
    ensures Builds[i].title == PageNames[i]
    ensures SiteFiles()[i].0 == HrefFor(Builds[i].title)
    ensures PageOfFile(SiteFiles()[i].0) == Some(Builds[i].title)
  {
    HrefForPages(Builds[i].title);
  }

  /** Each page marks its own nav link, except the cart page, which has none of its own and marks Home. */
  lemma PagesMarkActive(i: nat)
    requires i < |Builds|
    ensures Unbuild(SiteFiles()[i].1) ==
            Some((Builds[i].title, Some(if Builds[i].title == "Cart" then "Home" else Builds[i].title), Builds[i].main))
  {
    BaseDocUnbuild(Builds[i].title, Builds[i].active, Builds[i].main);
  }
}
