/**
 * `AdminController`: the state-changing admin actions. Each action first
 * requires a signed-in administrator, then a matching CSRF token, and only
 * then touches the store; its answer is where it redirects to. The page
 * rendering, the file upload and the password hashing are not modelled: an
 * upload is given as the stored file name it produced, if any, and password
 * verification is a function the controller is given.
 */
module Admin {
  import opened Wrappers
  import opened Php
  import Str
  import opened Sessions
  import opened Security
  import opened Articles

  /**
   * The `$_POST` keys the controller reads: `csrf_token`, `title`, `slug`,
   * `excerpt`, `body`, `category_id`, `status`, `published_at`,
   * `scheduled_at`, `meta_title`, `meta_description`, `name`, `description`,
   * `email` and `password`. Other keys are never read.
   */
  datatype Key =
    | CsrfTokenKey | TitleKey | SlugKey | ExcerptKey | BodyKey | CategoryIdKey | StatusKey
    | PublishedAtKey | ScheduledAtKey | MetaTitleKey | MetaDescriptionKey
    | NameKey | DescriptionKey | EmailKey | PasswordKey

  /** A submitted form: the text fields of `$_POST` and its `tags[]` list (empty when missing). */
  datatype Form = Form(fields: map<Key, string>, tags: seq<string>)

  /** `$_POST[key] ?? ''`. */
  function Field(post: Form, key: Key): string {
    if key in post.fields then post.fields[key] else ""
  }

  /** An optional datetime field: `null` when missing or empty in PHP's sense (`''` or `'0'`). */
  function DateField(post: Form, key: Key): (r: Option<string>)
    ensures r.None? <==> Empty(Field(post, key))
    ensures r.Some? ==> r.value == Field(post, key)
  {
    if Empty(Field(post, key)) then None else Some(Field(post, key))
  }

  /** `array_map('intval', $tags)`. */
  function IntVals(tags: seq<string>): (r: seq<int>)
    ensures |r| == |tags| && forall k :: 0 <= k < |tags| ==> r[k] == IntVal(tags[k])
  {
    if tags == [] then [] else [IntVal(tags[0])] + IntVals(tags[1..])
  }

  /** The submitted status is kept when it is one of the three, and is a draft otherwise. */
  function FormStatus(s: string): (st: Status)
    ensures ParseStatus(s).Some? ==> StatusName(st) == s
    ensures ParseStatus(s).None? ==> st == Draft
    ensures st != Draft ==> StatusName(st) == s
  {
    ParseStatus(s).GetOr(Draft)
  }

  /**
   * `extractArticleData`: stripped text fields, the body as sent, the category
   * as an integer, the status only if it is one of the three, the dates, and the
   * tags as integers. The slug, the author and the image are set by the caller.
   */
  function ExtractArticleData(post: Form): (d: ArticleData)
    ensures d.status.Some?
    ensures d.status == Some(FormStatus(Field(post, StatusKey)))
    ensures d.publishedAt.None? <==> Empty(Field(post, PublishedAtKey))
    ensures d.scheduledAt.None? <==> Empty(Field(post, ScheduledAtKey))
    ensures CategoryIdKey !in post.fields ==> d.categoryId == 0
    ensures d.tags == IntVals(post.tags)
    ensures d.adminId.None? && d.featuredImage.None?
  {
    IntValOfNonNumeric("");
    ArticleData(
      None,
      IntVal(Field(post, CategoryIdKey)),
      Strip(Field(post, TitleKey)),
      "",
      Some(Strip(Field(post, ExcerptKey))),
      Some(Field(post, BodyKey)),
      None,
      Some(FormStatus(Field(post, StatusKey))),
      DateField(post, PublishedAtKey),
      DateField(post, ScheduledAtKey),
      Some(Strip(Field(post, MetaTitleKey))),
      Some(Strip(Field(post, MetaDescriptionKey))),
      IntVals(post.tags))
  }

  /** A date field holding `"0"` counts as missing. */
  lemma ZeroDateIsMissing(post: Form)
    requires Field(post, PublishedAtKey) == "0"
    ensures ExtractArticleData(post).publishedAt.None?
  {
  }

  // ---------------------------------------------------------------------
  // Slugs.
  // ---------------------------------------------------------------------

  /** The `k`-th slug `uniqueSlug` tries: `base`, then `base-1`, `base-2`, ... */
  function Candidate(base: string, k: nat): string {
    if k == 0 then base else base + "-" + NatToString(k)
  }

  /** Different attempts try different slugs. */
  lemma CandidateInjective(base: string, j: nat, k: nat)
    requires Candidate(base, j) == Candidate(base, k)
    ensures j == k
  {
    if j != 0 && k != 0 {
      var n := |base| + 1;
      assert Candidate(base, j)[n..] == NatToString(j);
      assert Candidate(base, k)[n..] == NatToString(k);
      NatToStringInjective(j, k);
    } else if j != 0 || k != 0 {
      assert false;
    }
  }

  /** The first `n` candidates. */
  ghost function Tried(base: string, n: nat): set<string> {
    set k: nat | k < n :: Candidate(base, k)
  }

  lemma TriedNext(base: string, n: nat)
    ensures Tried(base, n + 1) == Tried(base, n) + {Candidate(base, n)}
    ensures Candidate(base, n) !in Tried(base, n)
  {
    forall k: nat | k < n
      ensures Candidate(base, k) != Candidate(base, n)
    {
      if Candidate(base, k) == Candidate(base, n) {
        CandidateInjective(base, k, n);
      }
    }
  }

  /**
   * A taken candidate is one more of the finitely many slugs the other rows
   * have: fewer of those are left untried.
   */
  lemma TakenCandidate(rows: map<int, Article>, base: string, excludeId: int, n: nat)
    requires Tried(base, n) <= OtherSlugs(rows, excludeId)
    requires SlugTaken(rows, Candidate(base, n), excludeId)
    requires AllTaken(rows, base, excludeId, n)
    ensures Tried(base, n + 1) <= OtherSlugs(rows, excludeId)
    ensures AllTaken(rows, base, excludeId, n + 1)
    ensures |OtherSlugs(rows, excludeId) - Tried(base, n + 1)| < |OtherSlugs(rows, excludeId) - Tried(base, n)|
  {
    var all, x := OtherSlugs(rows, excludeId), Candidate(base, n);
    TriedNext(base, n);
    TakenIsOther(rows, x, excludeId);
    assert all - Tried(base, n + 1) == (all - Tried(base, n)) - {x};
  }

  /**
   * `slug` is what `uniqueSlug(base, excludeId)` answers for the rows `rows`:
   * no row but `excludeId` has it, and it is the first candidate with that property.
   */
  ghost predicate SlugChoice(rows: map<int, Article>, base: string, excludeId: int, slug: string) {
    && !SlugTaken(rows, slug, excludeId)
    && exists n: nat :: slug == Candidate(base, n) && AllTaken(rows, base, excludeId, n)
  }

  /** Other rows have each of the first `n` candidates. */
  ghost predicate AllTaken(rows: map<int, Article>, base: string, excludeId: int, n: nat) {
    forall k: nat :: k < n ==> SlugTaken(rows, Candidate(base, k), excludeId)
  }

  /** When no other row has `base`, `base` itself is chosen. */
  lemma FreeBaseIsKept(rows: map<int, Article>, base: string, excludeId: int, slug: string)
    requires SlugChoice(rows, base, excludeId, slug)
    requires !SlugTaken(rows, base, excludeId)
    ensures slug == base
  {
    var n: nat :| slug == Candidate(base, n) && AllTaken(rows, base, excludeId, n);
    assert Candidate(base, 0) == base;
  }

  /** The slug `editPost` asks for: the slugified submitted slug, or that of the title when this is empty. */
  function RequestedSlug(post: Form): (r: string)
    ensures Str.IsSlug(r)
  {
    var requested := Str.Slug(Field(post, SlugKey));
    if Empty(requested) then Str.Slug(Strip(Field(post, TitleKey))) else requested
  }

  /** Resubmitting a slug that is already a slug, and not `"0"`, asks for that slug. */
  lemma ResubmittedSlugIsRequested(post: Form)
    requires Str.IsSlug(Field(post, SlugKey)) && !Empty(Field(post, SlugKey))
    ensures RequestedSlug(post) == Field(post, SlugKey)
  {
    Str.SlugFixesSlugs(Field(post, SlugKey));
  }

  /** The slug `"0"` is falsy in PHP, so submitting it asks for the slug of the title instead. */
  lemma ZeroSlugFallsBackToTitle(post: Form)
    requires Field(post, SlugKey) == "0"
    ensures RequestedSlug(post) == Str.Slug(Strip(Field(post, TitleKey)))
  {
    assert Str.IsSlug("0") by {
      assert Str.IsSlugChar('0');
      assert Str.NoDoubleHyphen("0");
    }
    Str.SlugFixesSlugs("0");
  }

  // ---------------------------------------------------------------------
  // The controller.
  // ---------------------------------------------------------------------

  datatype Redirect = ToLogin | ToDashboard | ToArticles | ToArticleCreate | ToArticleEdit(id: int) | ToCategories

  /** A row of `admins`, as `findByEmail` returns it. */
  datatype Account = Account(id: int, role: string, username: string, passwordHash: string)

  /** The data `createPost` stores: the extracted fields, the author, the image and the chosen slug. */
  function CreateData(post: Form, adminId: int, upload: Option<string>, slug: string): ArticleData {
    ExtractArticleData(post).(adminId := Some(adminId), featuredImage := upload, slug := slug)
  }

  /** The data `editPost` stores: the extracted fields, the image if one was uploaded and the chosen slug. */
  function EditData(post: Form, upload: Option<string>, slug: string): ArticleData {
    ExtractArticleData(post).(featuredImage := upload, slug := slug)
  }

  /**
   * Resubmitting an article's own slug, when it is a non-empty slug no other
   * article has, keeps it.
   */
  lemma OwnSlugIsKept(rows: map<int, Article>, post: Form, id: int, slug: string)
    requires id in rows && SlugChoice(rows, RequestedSlug(post), id, slug)
    requires Field(post, SlugKey) == rows[id].slug && Str.IsSlug(rows[id].slug) && !Empty(rows[id].slug)
    requires !SlugTaken(rows, rows[id].slug, id)
    ensures slug == rows[id].slug
  {
    ResubmittedSlugIsRequested(post);
    FreeBaseIsKept(rows, RequestedSlug(post), id, slug);
  }

  /** `editPost` without an upload clears the stored image, since the extracted data has no image. */
  lemma EditWithoutUploadClearsImage(post: Form, slug: string)
    ensures BindArticleData(EditData(post, None, slug)).featuredImage.None?
  {
  }

  const CsrfMismatch: string := "CSRF token mismatch."
  const SecurityError: string := "Security error."
  const InvalidToken: string := "Invalid security token. Please try again."
  const InvalidCredentials: string := "Invalid email or password."

  /** The flash `loginPost` shows a locked-out user. */
  function TooManyAttempts(minutes: nat): string {
    "Too many failed attempts. Try again in " + NatToString(minutes) + " minutes."
  }

  class AdminController {
    const articles: ArticleModel
    const categories: CategoryModel
    const session: Session
    /** `findByEmail`: the administrators by e-mail address. */
    const accounts: map<string, Account>
    /** `password_verify`. */
    const passwordMatches: (string, string) -> bool

    ghost predicate Valid()
      reads articles, categories
    {
      articles.Valid() && categories.Valid()
    }

    constructor (articles: ArticleModel, categories: CategoryModel, session: Session,
                 accounts: map<string, Account>, passwordMatches: (string, string) -> bool)
      ensures this.articles == articles && this.categories == categories && this.session == session
      ensures this.accounts == accounts && this.passwordMatches == passwordMatches
    {
      this.articles, this.categories, this.session := articles, categories, session;
      this.accounts, this.passwordMatches := accounts, passwordMatches;
    }

    /** The submitted token matches the session's. */
    predicate CsrfOk(post: Form)
      reads session
    {
      VerifyCsrf(session, Field(post, CsrfTokenKey))
    }

    /**
     * `uniqueSlug`: try `base`, then `base-1`, `base-2`, ... and answer the
     * first that no article other than `excludeId` has. The loop ends because
     * the tried slugs are all different and all taken, and only finitely many are taken.
     */
    method UniqueSlug(base: string, excludeId: int) returns (slug: string)
      requires articles.Valid()
      ensures SlugChoice(articles.articles, base, excludeId, slug)
    {
      ghost var rows := articles.articles;
      ghost var taken := OtherSlugs(rows, excludeId);
      slug := base;
      var i := 1;
      while articles.SlugExists(slug, excludeId)
        invariant i >= 1
        invariant slug == Candidate(base, i - 1)
        invariant AllTaken(rows, base, excludeId, i - 1)
        invariant Tried(base, i - 1) <= taken
        decreases |taken - Tried(base, i - 1)|
      {
        TakenCandidate(rows, base, excludeId, i - 1);
        slug := Candidate(base, i);
        i := i + 1;
      }
    }

    /**
     * The storing half of `createPost`: the slug of the title made unique
     * among all articles, then `create` with the extracted data.
     */
    method StoreNew(post: Form, adminId: int, upload: Option<string>, now: int) returns (id: int, slug: string)
      requires articles.Valid()
      modifies articles
      ensures articles.Valid()
      ensures id == old(articles.nextId) && id !in old(articles.articles)
      ensures SlugChoice(old(articles.articles), Str.Slug(Strip(Field(post, TitleKey))), 0, slug)
      ensures articles.articles == old(articles.articles)[id :=
        articles.NewRow(id, BindArticleData(CreateData(post, adminId, upload, slug)), now)]
      ensures articles.articleTags == if |post.tags| > 0 then Retagged(old(articles.articleTags), id, ExtractArticleData(post).tags)
        else old(articles.articleTags)
      ensures articles.nextId == old(articles.nextId) + 1
      ensures SlugsUnique(old(articles.articles)) ==> SlugsUnique(articles.articles)
    {
      slug := UniqueSlug(Str.Slug(Strip(Field(post, TitleKey))), 0);
      ghost var before := articles.articles;
      id := articles.Create(CreateData(post, adminId, upload, slug), now);
      if SlugsUnique(before) {
        FreeSlugKeepsSlugsUnique(before, id, articles.articles[id], 0);
      }
    }

    /**
     * `createPost`: with a signed-in administrator and a matching token, store
     * the extracted article under a fresh id with the slug of its title made
     * unique, stamped with the administrator's id, and go to its edit page.
     */
    method CreatePost(post: Form, upload: Option<string>, now: int) returns (to: Redirect)
      requires Valid()
      modifies articles, session
      ensures Valid()
      ensures old(session.adminId).None? ==>
        to == ToLogin && articles.articles == old(articles.articles) && articles.articleTags == old(articles.articleTags)
        && articles.nextId == old(articles.nextId) && session.flashes == old(session.flashes)
      ensures old(session.adminId).Some? && !old(CsrfOk(post)) ==>
        to == ToArticleCreate && articles.articles == old(articles.articles) && articles.articleTags == old(articles.articleTags)
        && articles.nextId == old(articles.nextId) && session.flashes == old(session.flashes)["error" := CsrfMismatch]
      ensures old(session.adminId).Some? && old(CsrfOk(post)) ==>
        var id := old(articles.nextId);
        && to == ToArticleEdit(id)
        && id !in old(articles.articles) && id in articles.articles
        && SlugChoice(old(articles.articles), Str.Slug(Strip(Field(post, TitleKey))), 0, articles.articles[id].slug)
        && articles.articles == old(articles.articles)[id :=
             articles.NewRow(id, BindArticleData(CreateData(post, old(session.adminId).value, upload, articles.articles[id].slug)), now)]
        && articles.articleTags == (if |post.tags| > 0 then Retagged(old(articles.articleTags), id, ExtractArticleData(post).tags)
                                    else old(articles.articleTags))
        && articles.nextId == id + 1
        && session.flashes == old(session.flashes)["success" := "Article created successfully."]
      ensures SlugsUnique(old(articles.articles)) ==> SlugsUnique(articles.articles)
      ensures session.adminId == old(session.adminId) && session.loginAttempts == old(session.loginAttempts)
      ensures session.csrfToken == old(session.csrfToken)
      ensures session.adminRole == old(session.adminRole) && session.adminName == old(session.adminName)
    {
      if session.adminId.None? {
        return ToLogin;
      }
      if !CsrfOk(post) {
        session.Flash("error", CsrfMismatch);
        return ToArticleCreate;
      }
      var id, _ := StoreNew(post, session.adminId.value, upload, now);
      session.Flash("success", "Article created successfully.");
      to := ToArticleEdit(id);
    }

    /**
     * The storing half of `editPost`: the requested slug made unique among
     * the other articles, then `update` with the extracted data.
     */
    method StoreEdit(post: Form, id: int, upload: Option<string>, now: int) returns (slug: string)
      requires articles.Valid()
      modifies articles
      ensures articles.Valid()
      ensures SlugChoice(old(articles.articles), RequestedSlug(post), id, slug)
      ensures articles.articles == if id in old(articles.articles)
        then old(articles.articles)[id := articles.UpdatedRow(old(articles.articles)[id], BindArticleData(EditData(post, upload, slug)), now)]
        else old(articles.articles)
      ensures articles.articleTags == if |post.tags| > 0 then Retagged(old(articles.articleTags), id, ExtractArticleData(post).tags)
        else old(articles.articleTags)
      ensures articles.nextId == old(articles.nextId)
      ensures SlugsUnique(old(articles.articles)) ==> SlugsUnique(articles.articles)
    {
      var requested := Str.Slug(Field(post, SlugKey));
      if Empty(requested) {
        requested := Str.Slug(Strip(Field(post, TitleKey)));
      }
      slug := UniqueSlug(requested, id);
      ghost var before := articles.articles;
      articles.Update(id, EditData(post, upload, slug), now);
      if SlugsUnique(before) && id in before {
        FreeSlugKeepsSlugsUnique(before, id, articles.articles[id], id);
      }
    }

    /**
     * `editPost`: with a signed-in administrator and a matching token, rewrite
     * article `id` with the extracted fields and the requested slug made unique
     * among the other articles. Without an upload the stored image is cleared.
     */
    method EditPost(post: Form, id: int, upload: Option<string>, now: int) returns (to: Redirect)
      requires Valid()
      modifies articles, session
      ensures Valid()
      ensures to == if old(session.adminId).None? then ToLogin else ToArticleEdit(id)
      ensures old(session.adminId).None? || !old(CsrfOk(post)) ==>
        articles.articles == old(articles.articles) && articles.articleTags == old(articles.articleTags)
      ensures old(session.adminId).None? ==> session.flashes == old(session.flashes)
      ensures articles.nextId == old(articles.nextId)
      ensures old(session.adminId).Some? && !old(CsrfOk(post)) ==>
        session.flashes == old(session.flashes)["error" := CsrfMismatch]
      ensures old(session.adminId).Some? && old(CsrfOk(post)) ==>
        && (id !in old(articles.articles) ==> articles.articles == old(articles.articles))
        && (id in old(articles.articles) ==>
              && id in articles.articles
              && SlugChoice(old(articles.articles), RequestedSlug(post), id, articles.articles[id].slug)
              && articles.articles == old(articles.articles)[id := articles.UpdatedRow(old(articles.articles)[id],
                   BindArticleData(EditData(post, upload, articles.articles[id].slug)), now)])
        && articles.articleTags == (if |post.tags| > 0 then Retagged(old(articles.articleTags), id, ExtractArticleData(post).tags)
                                    else old(articles.articleTags))
        && session.flashes == old(session.flashes)["success" := "Article updated successfully."]
      ensures SlugsUnique(old(articles.articles)) ==> SlugsUnique(articles.articles)
      ensures session.adminId == old(session.adminId) && session.loginAttempts == old(session.loginAttempts)
      ensures session.csrfToken == old(session.csrfToken)
      ensures session.adminRole == old(session.adminRole) && session.adminName == old(session.adminName)
    {
      if session.adminId.None? {
        return ToLogin;
      }
      if !CsrfOk(post) {
        session.Flash("error", CsrfMismatch);
        return ToArticleEdit(id);
      }
      var _ := StoreEdit(post, id, upload, now);
      session.Flash("success", "Article updated successfully.");
      to := ToArticleEdit(id);
    }

    /** `deletePost`: with a signed-in administrator and a matching token, delete article `id`. */
    method DeletePost(post: Form, id: int) returns (to: Redirect)
      requires Valid()
      modifies articles, session
      ensures Valid()
      ensures to == if old(session.adminId).None? then ToLogin else ToArticles
      ensures articles.articles == if old(session.adminId).Some? && old(CsrfOk(post))
        then old(articles.articles) - {id} else old(articles.articles)
      ensures articles.articleTags == old(articles.articleTags) && articles.nextId == old(articles.nextId)
      ensures session.flashes == if old(session.adminId).None? then old(session.flashes)
        else if !old(CsrfOk(post)) then old(session.flashes)["error" := SecurityError]
        else old(session.flashes)["success" := "Article deleted."]
      ensures session.adminId == old(session.adminId) && session.loginAttempts == old(session.loginAttempts)
      ensures session.csrfToken == old(session.csrfToken)
      ensures session.adminRole == old(session.adminRole) && session.adminName == old(session.adminName)
    {
      if session.adminId.None? {
        return ToLogin;
      }
      if !CsrfOk(post) {
        session.Flash("error", SecurityError);
        return ToArticles;
      }
      articles.Delete(id);
      session.Flash("success", "Article deleted.");
      to := ToArticles;
    }

    /**
     * `categoryCreate`: with a signed-in administrator and a matching token,
     * store a category with the stripped name and description and the slug of the name.
     */
    method CategoryCreate(post: Form) returns (to: Redirect)
      requires Valid()
      modifies categories, session
      ensures Valid()
      ensures to == if old(session.adminId).None? then ToLogin else ToCategories
      ensures old(session.adminId).None? || !old(CsrfOk(post)) ==> categories.categories == old(categories.categories)
      ensures old(session.adminId).Some? && old(CsrfOk(post)) ==>
        var id := old(categories.nextId);
        && id !in old(categories.categories)
        && categories.categories == old(categories.categories)[id :=
             Category(Strip(Field(post, NameKey)), Str.Slug(Field(post, NameKey)), Strip(Field(post, DescriptionKey)))]
        && Str.IsSlug(categories.categories[id].slug)
      ensures categories.nextId == if old(session.adminId).Some? && old(CsrfOk(post))
        then old(categories.nextId) + 1 else old(categories.nextId)
      ensures session.flashes == if old(session.adminId).None? then old(session.flashes)
        else if !old(CsrfOk(post)) then old(session.flashes)["error" := SecurityError]
        else old(session.flashes)["success" := "Category created."]
      ensures session.adminId == old(session.adminId) && session.loginAttempts == old(session.loginAttempts)
      ensures session.csrfToken == old(session.csrfToken)
      ensures session.adminRole == old(session.adminRole) && session.adminName == old(session.adminName)
    {
      if session.adminId.None? {
        return ToLogin;
      }
      if !CsrfOk(post) {
        session.Flash("error", SecurityError);
        return ToCategories;
      }
      var name := Field(post, NameKey);
      var _ := categories.Create(Category(Strip(name), Str.Slug(name), Strip(Field(post, DescriptionKey))));
      session.Flash("success", "Category created.");
      to := ToCategories;
    }

    /** `categoryDelete`: with a signed-in administrator and a matching token, delete category `id`. */
    method CategoryDelete(post: Form, id: int) returns (to: Redirect)
      requires Valid()
      modifies categories, session
      ensures Valid()
      ensures to == if old(session.adminId).None? then ToLogin else ToCategories
      ensures categories.categories == if old(session.adminId).Some? && old(CsrfOk(post))
        then old(categories.categories) - {id} else old(categories.categories)
      ensures categories.nextId == old(categories.nextId)
      ensures session.flashes == if old(session.adminId).None? then old(session.flashes)
        else if !old(CsrfOk(post)) then old(session.flashes)["error" := SecurityError]
        else old(session.flashes)["success" := "Category deleted."]
      ensures session.adminId == old(session.adminId) && session.loginAttempts == old(session.loginAttempts)
      ensures session.csrfToken == old(session.csrfToken)
      ensures session.adminRole == old(session.adminRole) && session.adminName == old(session.adminName)
    {
      if session.adminId.None? {
        return ToLogin;
      }
      if !CsrfOk(post) {
        session.Flash("error", SecurityError);
        return ToCategories;
      }
      categories.Delete(id);
      session.Flash("success", "Category deleted.");
      to := ToCategories;
    }

    /** The identifier the limiter counts failures under: the stripped e-mail address. */
    function LoginEmail(post: Form): string {
      Strip(Field(post, EmailKey))
    }

    /** The record `checkLoginAttempts` leaves for the identifier of `post`. */
    function LoginRecord(attempts: map<string, Attempt>, post: Form, now: int): Attempt {
      Refreshed(Lookup(attempts, LoginEmail(post)), now)
    }

    /** The password sent matches the account of `email`. */
    predicate Authenticates(post: Form, email: string) {
      email in accounts && passwordMatches(Field(post, PasswordKey), accounts[email].passwordHash)
    }

    /**
     * `loginPost`: after a matching token, check the limiter for the stripped
     * e-mail; a locked-out address is refused without a credential check and
     * its count is left alone; a failed check counts one more failure; a
     * successful one clears the record and signs the administrator in.
     */
    method LoginPost(post: Form, now: int) returns (to: Redirect)
      modifies session
      ensures !old(CsrfOk(post)) ==>
        && to == ToLogin && session.loginAttempts == old(session.loginAttempts)
        && session.adminId == old(session.adminId)
        && session.adminRole == old(session.adminRole) && session.adminName == old(session.adminName)
        && session.flashes == old(session.flashes)["login_error" := InvalidToken]
      ensures old(CsrfOk(post)) && !Allows(LoginRecord(old(session.loginAttempts), post, now)) ==>
        var email := LoginEmail(post);
        && to == ToLogin && session.adminId == old(session.adminId)
        && session.adminRole == old(session.adminRole) && session.adminName == old(session.adminName)
        && session.loginAttempts == old(session.loginAttempts)[email := LoginRecord(old(session.loginAttempts), post, now)]
        && session.flashes == old(session.flashes)["login_error" :=
             TooManyAttempts(LockoutMinutesLeft(RemainingLockout(session.loginAttempts, email, now)))]
      ensures old(CsrfOk(post)) && Allows(LoginRecord(old(session.loginAttempts), post, now)) && !Authenticates(post, LoginEmail(post)) ==>
        && to == ToLogin && session.adminId == old(session.adminId)
        && session.adminRole == old(session.adminRole) && session.adminName == old(session.adminName)
        && session.loginAttempts == old(session.loginAttempts)[LoginEmail(post) :=
             Bumped(Some(LoginRecord(old(session.loginAttempts), post, now)), now)]
        && session.flashes == old(session.flashes)["login_error" := InvalidCredentials]
      ensures old(CsrfOk(post)) && Allows(LoginRecord(old(session.loginAttempts), post, now)) && Authenticates(post, LoginEmail(post)) ==>
        var account := accounts[LoginEmail(post)];
        && to == ToDashboard && session.loginAttempts == old(session.loginAttempts) - {LoginEmail(post)}
        && session.adminId == Some(account.id) && session.adminRole == Some(account.role)
        && session.adminName == Some(account.username)
        && session.flashes == old(session.flashes)
      ensures session.csrfToken == old(session.csrfToken)
    {
      if !CsrfOk(post) {
        session.Flash("login_error", InvalidToken);
        return ToLogin;
      }
      ghost var attempts := session.loginAttempts;
      ghost var rec := LoginRecord(attempts, post, now);
      var email := LoginEmail(post);
      var allowed := CheckLoginAttempts(session, email, now);
      assert session.loginAttempts == attempts[email := rec];
      if !allowed {
        var seconds := RemainingLockout(session.loginAttempts, email, now);
        session.Flash("login_error", TooManyAttempts(LockoutMinutesLeft(seconds)));
        return ToLogin;
      }
      var account := Lookup(accounts, email);
      if account.None? || !passwordMatches(Field(post, PasswordKey), account.value.passwordHash) {
        IncrementLoginAttempts(session, email, now);
        assert session.loginAttempts == attempts[email := Bumped(Some(rec), now)];
        session.Flash("login_error", InvalidCredentials);
        return ToLogin;
      }
      ClearLoginAttempts(session, email);
      assert session.loginAttempts == attempts - {email};
      session.adminId := Some(account.value.id);
      session.adminRole := Some(account.value.role);
      session.adminName := Some(account.value.username);
      to := ToDashboard;
    }
  }
}
