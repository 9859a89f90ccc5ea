# A verified model of the RealWorld store and its handlers

The repository implements the RealWorld blogging API: C++ request handlers over a PostgreSQL schema whose functions do
the work. This project models the schema, the handlers that sequence its functions, and the checks in front of them,
and proves what holds for every database, every request and every interleaving of requests.

## How it is built

| files | what they hold |
|---|---|
| `Prelude`, `Text`, `Schema` | optional values; case folding, slugs, password matching and collation, all left uninterpreted; the seven tables, four sequences and declared constraints |
| `Mutators`, `Integrity` | the eleven mutating SQL functions as functions of the database, failures and drawn sequence values included; every constraint is inductive |
| `AbstractStore`, `Refinement` | posts with a set of tag names, a set of fans and a map of remarks; every mutator commutes with the abstraction |
| `Evolution` | what no later statement can undo; exact cascade; ids that only grow |
| `Rows`, `Queries`, `Views`, `Listings`, `Paging`, `Counting` | scans, joins, `ORDER BY`, `LIMIT`; the queries as the SQL writes them; reference views on the abstract store and the proof that the queries return them; paging through the list and the feed; counting and narrowing |
| `Database` | the database as an object that the SQL functions update in place, with rollback of the tables |
| `Handlers`, `Interleaving`, `Outcomes` | the handlers as programs over single statements; any number of them interleaved; what a caller may conclude from an answer |
| `Columns`, `Showing`, `Effects` | the statements, the reads and the requests once more, column by column of the tables, in terms that the code they describe does not use, apart from the uninterpreted functions |
| `Solo`, `Service` | a request that nothing interferes with is one operation on the abstract store; the handlers as imperative code over the database object |
| `Favoriting` | what the favorite and unfavorite handlers write to and show, over everything others do in between |
| `Serialisability` | when overlapping requests come out as if one after the other, and when they do not |
| `Requests`, `Email` | validation, tag normalisation, the authorization header; the e-mail pattern, an automaton and a description of its language |
| `Patches` | partial updates merge |

A statement is atomic and takes its clock reading as an argument; a query takes the order in which it visits the tables
as an argument, because SQL leaves it open. Strings are sequences of code points. No clock needs to be monotone.
Uninterpreted functions (`FoldCase`, `Slugify`, `Collates`, `PasswordMatches`, `VerifiedId`) are constants without a
value: every theorem holds for all choices of them.

## What the code does that one might not expect

The model keeps the code as it is. Each of these is stated and proved:

- A feed row shows the number of all favorites in the store, because the subquery at `postgresql/schemas/db_1.sql:503`
  compares a column with itself (`Counting.FeedCountsAreExactIff`).
- The list and the feed say "not favorited" to everybody. So a row of the list is the article's own page exactly when
  there is no viewer or the viewer is not a fan, and a row of the feed exactly when the caller is not a fan and no other
  article has one (`Counting.ListRowIsThePageIff`, `Counting.FeedRowIsThePageIff`).
- An article with a favorite cannot be deleted, not even by its author (`Evolution.DeleteIsExact`).
- Without a limit the feed is unlimited, while the list stops at 20 (`Listings.FeedIsFilterSortSlice`,
  `Listings.ListIsFilterSortSlice`).
- Repeating a favorite or a follow ends in an uncaught driver error (`Solo.FavoriteIsSeen`, `Solo.FollowIsSeen`).
- Deleting somebody else's article answers like a success and does nothing (`Solo.StrangersDeleteNothing`).
- Paging through the list or the feed can show an article twice and miss another, exactly when two articles of one
  date stand on either side of a page boundary; ties inside a page do no harm (`Paging.PagingIsSoundIffNoTieAcross`,
  `Paging.FeedPagingIsSoundIffNoTieAcross`).
- The favorite handler writes by slug and reads back by the id it found first, so a rename in between makes it favorite
  one article and answer with another (`Outcomes.RenameMisleadsFavorite`). The slug still names the article exactly when
  the calls made in between, with their replies, leave it there (`Favoriting.FavoriteShowsTheArticleIffSlugUnmoved`),
  and only its author can move it (`Favoriting.OnlyTheAuthorMovesTheSlug`).
- An update of nothing but tags is accepted and drops them (`Requests.TagsOfAnUpdateAreDropped`).
- A title of 255 characters may be created but not sent in an update (`Requests.CreatableIsUpdatableIff`).
- If the author of an article without favorites deletes it twice and both lookups come first, both deletes succeed,
  as in no serial order; no other two article deletes at one slug with both lookups first differ from a serial order
  (`Serialisability.OverlappingDeletesAreSerialIff`). The same holds of two deletes of one comment at one slug, whose
  failing case is that both are by the comment's author and find it
  (`Serialisability.OverlappingCommentDeletesAreSerialIff`). Any request during which nobody else writes is one
  operation (`Serialisability.UndisturbedIsAtomic`).
- The length of an e-mail address is not checked, so a valid one may not fit its column
  (`Requests.ValidEmailsMayNotFit`, `Requests.AcceptedAccountFitsButForEmail`).
- The account update does not catch unique violations, unlike the registration
  (`Requests.AccountUpdateCrashesIff`, `Service.Register`).

## Model

| member | source | states |
|---|---|---|
| `Database.Database.constructor` | postgresql/schemas/db_1.sql:3-73 | the schema as created is empty and satisfies every constraint |
| `Database.Database.FindArticle` | postgresql/schemas/db_1.sql:133 | scanning for a slug in any order finds the article the scalar subquery denotes, or NULL |
| `Database.Database.AddNewUser` | postgresql/schemas/db_1.sql:184-204 | in-place insert with its error order; a new row with exactly the given columns iff an id is left, the texts fit and name, up to case, and e-mail are free; the id is drawn even when it fails |
| `Database.Database.UpdateUserById` | postgresql/schemas/db_1.sql:726-755 | in-place COALESCE update: each of the five columns is the new value where one is given and the old one otherwise, no other row changes, the new row is returned; or the error and nothing changed |
| `Database.Database.UpsertTags` | postgresql/schemas/db_1.sql:162-166 | the loop over the names computes the upsert: skipped names draw an id too |
| `Database.Database.AddNewArticle` | postgresql/schemas/db_1.sql:143-182 | three statements in one call: a row with exactly the given texts and tags; a late failure takes back the rows but not the sequence values |
| `Database.Database.UpdateArticleBySlug` | postgresql/schemas/db_1.sql:699-724 | in-place COALESCE update of the caller's article at the slug, no row when there is none |
| `Database.Database.DeleteArticleBySlug` | postgresql/schemas/db_1.sql:206-220 | delete, cascade, then the check of the key without a cascade, and rollback when it fails |
| `Database.Database.AddCommentToArticle` | postgresql/schemas/db_1.sql:121-141 | insert under the article of the slug; an unknown slug violates NOT NULL |
| `Database.Database.IsCommentExist` | postgresql/schemas/db_1.sql:240-259 | whether this comment is by this author and on the article at this slug |
| `Database.Database.DeleteComment` | postgresql/schemas/db_1.sql:222-238 | removes exactly the comment that the same condition selects |
| `Database.Database.FavoriteArticle` | postgresql/schemas/db_1.sql:261-272 | plain insert with its three failures |
| `Database.Database.UnfavoriteArticle` | postgresql/schemas/db_1.sql:671-683 | removes the pair, nothing when the slug is unknown |
| `Database.Database.Follow` | postgresql/schemas/db_1.sql:274-285 | plain insert with its failures |
| `Database.Database.Unfollow` | postgresql/schemas/db_1.sql:685-697 | removes the pair |
| `Database.Database.Execute` | postgresql/schemas/db_1.sql:121-285 | any mutating call does to the columns what it should, with the right reply, and keeps all constraints of the object |
| `Columns.AddUserByColumns` | postgresql/schemas/db_1.sql:184-204 | an insert that succeeds adds one row with the given name, e-mail and hash, without bio and image; which error comes when, each decided by the rows there are |
| `Columns.UpdateUserByColumns` | postgresql/schemas/db_1.sql:726-755 | each column of the row is the patch value where present and the old one where absent, and nothing else changes; which error comes when |
| `Columns.TagsEndAs` | postgresql/schemas/db_1.sql:162-166 | the upsert ends well iff every name fits and ids suffice, and otherwise with the error that comes first |
| `Columns.AddArticleByColumns` | postgresql/schemas/db_1.sql:143-182 | the new row has exactly the given title, slug, description, body, author and dates, and exactly the given tag names; other articles keep theirs; which error comes when |
| `Columns.UpdateArticleByColumns` | postgresql/schemas/db_1.sql:699-724 | each text of the caller's article at the slug is the patch value where present and the old one where absent, the date of change is now, and nothing else changes; no row iff there is no such article |
| `Columns.DeleteArticleByColumns` | postgresql/schemas/db_1.sql:206-220 | exactly the article, its links and its comments go, or nothing |
| `Columns.AddCommentByColumns` | postgresql/schemas/db_1.sql:121-141 | one comment with the given text, author and dates on the article that has the slug; which error comes when |
| `Columns.CommentFilterByColumns` | postgresql/schemas/db_1.sql:252-257 | a comment is found iff it is there, by the author, and on an article with the slug |
| `Columns.RemoveCommentByColumns` | postgresql/schemas/db_1.sql:222-238 | that comment goes and nothing else does |
| `Columns.FavoritesByColumns` | postgresql/schemas/db_1.sql:261-272 | the pair of the user and the article that has the slug is added or removed, and nothing else; which error comes when |
| `Columns.ApplyByColumns` | postgresql/schemas/db_1.sql:121-285 | each of the eleven statements does to the columns what it should |
| `IntegrityProofs.InsertTagsFacts` | postgresql/schemas/db_1.sql:162-166 | the upsert keeps old tags, adds only requested names under never-issued ids, and without an error all requested names are there |
| `IntegrityProofs.SlugPicksOne` | postgresql/schemas/db_1.sql:29 | the unique slug leaves the scalar lookup no choice |
| `IntegrityProofs.LinksAreFresh` | postgresql/schemas/db_1.sql:168-178 | the links of a new article never clash with existing ones |
| `IntegrityProofs.AddArticleKeepsIntegrity` | postgresql/schemas/db_1.sql:143-182 | the three-statement create keeps every key, unique and foreign-key constraint |
| `IntegrityProofs.ApplyKeepsIntegrity` | postgresql/schemas/db_1.sql:6-73 | every statement, failing or not, keeps every declared constraint at once |
| `IntegrityProofs.RunKeepsIntegrity` | postgresql/schemas/db_1.sql:6-73 | so does every sequence of statements |
| `IntegrityProofs.SerialKeysNeverClash` | postgresql/schemas/db_1.sql:7-42 | in a valid database no statement fails on a key that a sequence issues, nor on article_tags |
| `IntegrityProofs.ApplyKeepsColumns` | postgresql/schemas/db_1.sql:6-73 | what VARCHAR columns hold fits them after every statement |
| `IntegrityProofs.RunKeepsColumns` | postgresql/schemas/db_1.sql:6-73 | and after every run |
| `Refinement.LookupsAgree` | postgresql/schemas/db_1.sql:236 | looking a slug up in the tables and in the abstract store finds the same article |
| `Refinement.TagIdsAreDrawnInBulk` | postgresql/schemas/db_1.sql:162-166 | how far the tag sequence moves and how the upsert ends, without going through it name by name |
| `Refinement.LinksCarryTheNames` | postgresql/schemas/db_1.sql:168-178 | the join rows give the new article exactly the requested names and touch no other article |
| `Refinement.RegisterCommutes` | postgresql/schemas/db_1.sql:184-204 | registration on tables and on the store agree in effect and reply; what both do is `Columns.AddUserByColumns` |
| `Refinement.EditCommutes` | postgresql/schemas/db_1.sql:726-755 | so does the account update, by `Columns.UpdateUserByColumns` the right one |
| `Refinement.PublishCommutes` | postgresql/schemas/db_1.sql:143-182 | so does the create: a post with a set of names, whatever the order, repetition and earlier existence of the tags |
| `Refinement.ReviseCommutes` | postgresql/schemas/db_1.sql:699-724 | so does the article update |
| `Refinement.WithdrawCommutes` | postgresql/schemas/db_1.sql:206-220 | so does the delete: one post goes, refused while it has a fan |
| `Refinement.AddRemarkCommutes` | postgresql/schemas/db_1.sql:121-141 | so does the comment |
| `Refinement.CommentFilterAgrees` | postgresql/schemas/db_1.sql:252-257 | the three-valued filter selects the author's own remark on the post at the slug |
| `Refinement.DropRemarkCommutes` | postgresql/schemas/db_1.sql:222-238 | so does deleting a comment |
| `Refinement.AddFanCommutes` | postgresql/schemas/db_1.sql:261-272 | so does the favorite |
| `Refinement.DropFanCommutes` | postgresql/schemas/db_1.sql:671-683 | so does taking it back |
| `Refinement.FollowCommutes` | postgresql/schemas/db_1.sql:274-285 | so do follow and unfollow |
| `Refinement.ApplyCommutes` | postgresql/schemas/db_1.sql:121-285 | every mutator, succeeding or failing, commutes with the abstraction |
| `Refinement.RunRefines` | postgresql/schemas/db_1.sql:121-285 | any sequence of calls gives the same store and the same replies on tables and abstract store |
| `Evolution.ApplyEvolves` | postgresql/schemas/db_1.sql:121-285 | no statement loses an account, changes an article's author, creation date or tags, a tag or a comment, or reuses an id |
| `Evolution.RunEvolves` | postgresql/schemas/db_1.sql:121-285 | nor does any run |
| `Evolution.IdsAreNeverReused` | postgresql/schemas/db_1.sql:7-33 | an id out of use after a delete, a failure or a skipped row never comes back |
| `Evolution.InsertReturnsTheNextId` | postgresql/schemas/db_1.sql:193-202 | a successful insert returns the next value of its sequence |
| `Evolution.IssuedIdsIncrease` | postgresql/schemas/db_1.sql:193-202 | over any run the ids handed out from one sequence strictly increase |
| `Evolution.TagsRoundTrip` | postgresql/schemas/db_1.sql:154-180 | after a create the article has exactly the requested names, other articles keep theirs, and no later run changes them |
| `Evolution.DeleteIsExact` | postgresql/schemas/db_1.sql:206-220 | the delete has an effect iff the caller's article is at the slug and has no favorite; then that article, its links and its comments are gone and nothing else; it fails iff the caller's article has a favorite |
| `Evolution.UndoRestores` | postgresql/schemas/db_1.sql:671-697 | unfollow after a successful follow, and unfavorite after a favorite, restore the database exactly |
| `Views.FollowingIsMembership` | postgresql/schemas/db_1.sql:530-534 | although a comparison with NULL is never true, "following" means that the viewer is present and follows |
| `Views.FavoritedIsMembership` | postgresql/schemas/db_1.sql:639-653 | "favorited" means that the user is present and a fan |
| `Views.CountIsFans` | postgresql/schemas/db_1.sql:340 | the counted pairs are as many as the fans |
| `Views.TagListsAgree` | postgresql/schemas/db_1.sql:304-321 | the joined and sorted rows are the tag names of the article, each once, in collation order |
| `Views.ArticlesAgree` | postgresql/schemas/db_1.sql:323-347 | the page of an article, once, whatever the scan order, or no row; a set-returning profile repeats nothing |
| `Views.ArticlesBySlugAgree` | postgresql/schemas/db_1.sql:349-377 | the by-slug page is the page of the one article there |
| `Views.NamedRows` | postgresql/schemas/db_1.sql:619-637 | a name in any case matches at most one account |
| `Views.EmailRows` | postgresql/schemas/db_1.sql:579-597 | an e-mail address matches at most one account |
| `Views.NamedProfilesAgree` | postgresql/schemas/db_1.sql:542-563 | the profile by name is the reference profile of that account |
| `Views.CommentsAgree` | postgresql/schemas/db_1.sql:441-461 | the comment by id, once, or no row: the join with its article drops nothing |
| `Views.PageCommentsAgree` | postgresql/schemas/db_1.sql:463-483 | the comments of a page are the remarks on the post at the slug, no more and no fewer |
| `Views.PageCommentsDiffer` | postgresql/schemas/db_1.sql:463-483 | and each comes once |
| `Listings.WhereMeansMatches` | postgresql/schemas/db_1.sql:411-432 | the WHERE clause is the filter by tag, author and fan |
| `Listings.JoinGivesOneRow` | postgresql/schemas/db_1.sql:406-410 | joining the author and calling the profile function neither drops nor repeats an article |
| `Listings.ListIsListing` | postgresql/schemas/db_1.sql:389-433 | the list is the matching articles, each once, newest first |
| `Listings.ListIsFilterSortSlice` | postgresql/schemas/db_1.sql:379-439 | the paged list is filter, sort, slice, with 20 rows unless told otherwise |
| `Listings.FeedIsFilterSortSlice` | postgresql/schemas/db_1.sql:485-517 | the paged feed is the articles by followed authors, newest first, sliced, an absent limit meaning all rows after the offset (`Rows.WindowByIndex`, `Showing.FeedPageByColumns`) |
| `Listings.FeedIsListing` | postgresql/schemas/db_1.sql:489-511 | the feed is the articles by followed authors, each once, newest first |
| `Rows.WindowByIndex` | postgresql/schemas/db_1.sql:433-437 | a page is refused iff a bound is negative; else it has min(limit, rows after the offset) rows, all of these without a limit, and row i is row offset + i |
| `Showing.ProfileByColumns` | postgresql/schemas/db_1.sql:519-540 | a profile shows name, bio and image of the account, and following iff the viewer is present and the pair is stored |
| `Showing.PageByColumns` | postgresql/schemas/db_1.sql:323-347 | a page shows the texts and dates of the row, its tag names sorted and each once, its author, how many users favor it, and whether the viewer does |
| `Showing.ChosenIffInList` | postgresql/schemas/db_1.sql:411-432 | which articles are listed, in terms of the tables: by tag, author and favoring user, names in any case |
| `Showing.ListPageByColumns` | postgresql/schemas/db_1.sql:389-437 | a page of the list: row i shows the columns of article offset + i of all listed ones, newest first; how many rows; refused iff a bound is negative |
| `Showing.FeedPageByColumns` | postgresql/schemas/db_1.sql:493-515 | the same for the feed, where an absent limit means all rows after the offset |
| `Showing.ListPagesAreNewestFirst` | src/handlers/api/articles.cpp:71-74 | the rows of a list answer come newest first |
| `Showing.FeedPagesAreNewestFirst` | src/handlers/api/articles_feed.cpp:56-59 | so do those of a feed answer |
| `Showing.CommentByColumns` | postgresql/schemas/db_1.sql:441-461 | a comment shows the text and dates of its row and its author |
| `Paging.PagesTileTheListing` | postgresql/schemas/db_1.sql:433-437 | with distinct dates consecutive pages are consecutive slices of the one listing, whatever plan each page ran with |
| `Paging.FeedPagesTileTheFeed` | postgresql/schemas/db_1.sql:511-515 | the same for the feed |
| `Paging.EnoughPagesGiveEverything` | postgresql/schemas/db_1.sql:433-437 | and enough of them are all of it |
| `Paging.EveryListingIsSomeScans` | postgresql/schemas/db_1.sql:433 | every newest-first order of the matching articles is the answer of some scan |
| `Paging.EveryFeedIsSomeScans` | postgresql/schemas/db_1.sql:511 | the same for the feed |
| `Paging.SameFirsts` | postgresql/schemas/db_1.sql:433 | where the date changes, every listing has the same rows before the change |
| `Paging.TiesBreakPaging` | postgresql/schemas/db_1.sql:433-437 | for any page size, two equal dates on either side of a page boundary give plans under which paging repeats an article |
| `Paging.PagingIsSoundIffNoTieAcross` | postgresql/schemas/db_1.sql:433-437 | for any page size, enough pages show each listed article once under all plans iff no date stands on both sides of a page boundary |
| `Paging.FeedPagingIsSoundIffNoTieAcross` | postgresql/schemas/db_1.sql:511-515 | the same for the feed |
| `Paging.PagingRowByRowNeedsDistinctDates` | postgresql/schemas/db_1.sql:433-437 | with pages of one row the condition is that all dates differ |
| `Paging.OnePageHasNoBoundary` | postgresql/schemas/db_1.sql:433-437 | a page that holds everything meets the condition whatever the dates |
| `Counting.FavoritesAreConserved` | postgresql/schemas/db_1.sql:47-53 | the counts on all article pages sum to the favorites there are |
| `Counting.TagsAreListedPerCarrier` | postgresql/schemas/db_1.sql:565-577 | get_tags lists a name once per article carrying it, so its length is the number of links |
| `Counting.FansAreBounded` | postgresql/schemas/db_1.sql:47-53 | an article has at most as many fans as there are users, and those at most 2^31 - 1 |
| `Counting.NarrowedCountsAreExact` | src/dto/article.cpp:14 | narrowing the count to 32 bits is lossless on pages and in the list |
| `Counting.ParsingIsReversibleIff` | src/dto/article.cpp:5-21 | parsing a row loses its id and nothing else iff its count fits in 32 bits, and the count is right modulo 2^32 |
| `Counting.FeedCountsAreExactIff` | postgresql/schemas/db_1.sql:503 | a feed count agrees with the article's page iff no other article has a favorite, and is narrowed without loss iff all favorites fit |
| `Counting.ListRowIsThePageIff` | postgresql/schemas/db_1.sql:399 | a list row is the article's own page for this viewer iff there is no viewer or the viewer is not a fan |
| `Counting.FeedRowIsThePageIff` | postgresql/schemas/db_1.sql:502-503 | a feed row is the article's own page iff the caller is not a fan and no other article has one |
| `Handlers.AdvanceComesCloser` | src/handlers/api/articles_slug_favorite.cpp:31-49 | every statement brings a handler nearer to its answer |
| `Interleaving.SlugFromTitleKeepsSlugs` | src/handlers/api/articles.cpp:130-135 | statements that send slugs made from titles keep every slug the slug of its title |
| `Interleaving.HandlersSendSlugsFromTitles` | src/handlers/api/articles_slug.cpp:119-127 | and the handlers send no others |
| `Interleaving.AdvanceKeepsTables` | src/handlers/api/articles_slug_comments.cpp:96-104 | one statement of any handler keeps constraints, slugs and everything that cannot be undone |
| `Interleaving.HandlerStaysOk` | src/handlers/api/articles.cpp:147-150 | what a waiting handler relies on survives the statements of others |
| `Interleaving.AdvanceKeepsHandler` | src/handlers/api/articles_slug_favorite.cpp:31-49 | a step leads a handler to an accounted-for state: only the listed driver errors, mismatches only at read-backs |
| `Interleaving.NextKeepsWorld` | src/handlers/api/users.cpp:57-85 | an arrival or a step keeps the invariant of all requests, tokens and tables |
| `Interleaving.EveryWorldIsOk` | src/handlers/api/articles.cpp:128-155 | however many requests interleave: constraints hold, slugs follow titles, tokens name accounts, handlers are in accounted-for states |
| `Outcomes.InterleavingsAreRuns` | src/handlers/api/articles_slug_favorite.cpp:31-49 | every interleaving leaves database and store where one run of its writes leaves them |
| `Outcomes.TitlesAreUnique` | src/handlers/api/articles.cpp:130-135 | two live articles never have the same title, nor titles with the same slug |
| `Outcomes.TokensStayGood` | src/handlers/api/users.cpp:64-84 | the id in a token names an account in every later state and survives 64 bits and back |
| `Outcomes.ReadBackFailsIffDeleted` | src/handlers/api/articles.cpp:147-154 | a read-back finds one row unless somebody has deleted it since it was written |
| `Outcomes.CreateShowsTheCallersArticle` | src/handlers/api/articles.cpp:128-155 | if a create answers with an article, its author is the caller, its tags are the sorted distinct requested names and its slug comes from its title, under any interleaving |
| `Outcomes.EditShowsTheCallersArticle` | src/handlers/api/articles_slug.cpp:142-150 | if an update answers with an article, it is the caller's and its slug comes from its title, under any interleaving |
| `Outcomes.PostShowsTheCallersComment` | src/handlers/api/articles_slug_comments.cpp:101-108 | if a comment is answered with a comment, it has the id, the author and the text of the request, under any interleaving |
| `Outcomes.RenameMisleadsFavorite` | src/handlers/api/articles_slug_favorite.cpp:31-49 | an interleaving in which it is not |
| `Favoriting.StatementMoves` | postgresql/schemas/db_1.sql:206-220 | what one statement does to the slug of a given article, read off its arguments and its reply |
| `Favoriting.LogTellsWhere` | postgresql/schemas/db_1.sql:699-724 | over any run, calls and replies tell which slug an article has or that it is gone |
| `Favoriting.SlugOverTheWindow` | src/handlers/api/articles_slug_favorite.cpp:31-41 | between lookup and write the handler keeps its id, and the slug still names that article iff the log of the window says so |
| `Favoriting.FavoriteShowsTheArticleIffSlugUnmoved` | src/handlers/api/articles_slug_favorite.cpp:31-49 | the write after any window: the pair of the article now at the slug while the one found is shown, a crash when the pair is there, a crash when nothing has the slug; the two articles are the same iff calls and replies of the window leave it at the slug |
| `Favoriting.UnfavoriteShowsTheArticleIffSlugUnmoved` | src/handlers/api/articles_slug_unfavorite.cpp:31-49 | the same for the delete, which never crashes: the caller is rid of the article to be shown iff there was no such favorite or the window leaves it at the slug |
| `Favoriting.OnlyTheAuthorMovesTheSlug` | src/handlers/api/articles_slug_favorite.cpp:31-41 | without an update to another slug or a delete by the article's author at this slug, the write goes to the article found |
| `Favoriting.AnswerShowsTheFoundArticle` | src/handlers/api/articles_slug_favorite.cpp:42-49 | after any further window the answer is the page of the article found first as it then is, or the mismatch once it is deleted |
| `Solo.CreateIsAtomic` | src/handlers/api/articles.cpp:128-155 | alone, a create is one publication and answers with that post or the slug error; which texts it stores and shows is `Effects.CreateByColumns` |
| `Solo.EditIsAtomic` | src/handlers/api/articles_slug.cpp:117-150 | alone, an update is one revision of the caller's post, or not found, or the slug error |
| `Solo.RemoveArticleIsAtomic` | src/handlers/api/articles_slug.cpp:172-181 | alone, lookup and delete are one withdrawal |
| `Solo.CommentIsAtomic` | src/handlers/api/articles_slug_comments.cpp:96-108 | alone, a comment is one remark and answers with it |
| `Solo.RemoveCommentIsAtomic` | src/handlers/api/articles_slug_comments.cpp:142-153 | alone, check and delete remove the caller's own remark or answer not found |
| `Solo.FavoriteIsAtomic` | src/handlers/api/articles_slug_unfavorite.cpp:31-49 | alone, the three statements of favorite and unfavorite change the fans of one post and show that post |
| `Solo.FollowIsAtomic` | src/handlers/api/profiles.cpp:70-86 | alone, follow and unfollow change one pair and show the profile as it then is |
| `Solo.AccountIsAtomic` | src/handlers/api/user.cpp:116-130 | alone, registration, log-in and account update answer as one operation on the accounts |
| `Solo.EveryRequestIsAtomic` | src/handlers/api/articles.cpp:128-155 | every request without interference is one operation on the abstract store, in effect and answer |
| `Solo.EverySingleRowIsOne` | src/handlers/api/articles_slug.cpp:132-149 | without interference no result taken for a single row is anything else |
| `Solo.FavoriteIsSeen` | src/handlers/api/articles_slug_favorite.cpp:40-49 | the answer to a favorite says so and counts it; repeated it crashes; taken back, store and answer are as before |
| `Solo.StrangersDeleteNothing` | src/handlers/api/articles_slug.cpp:172-181 | a delete answers without an error and leaves the article there iff it is somebody else's |
| `Solo.FollowIsSeen` | src/handlers/api/profiles.cpp:77-123 | the answer to a follow is the profile, followed; it crashes iff the pair is already there; taken back, store and answer are as before |
| `Solo.SerialHistoriesRefine` | src/handlers/api/articles.cpp:128-155 | whole histories of requests that do not overlap give the answers of the abstract store |
| `Effects.RegistrationByColumns` | src/handlers/api/users.cpp:57-85 | alone, a registration adds the row and answers with its id, e-mail and name, or names the field that is taken |
| `Effects.RegistrationSucceedsIff` | src/handlers/api/users.cpp:57-79 | with an id left and texts that fit, a registration succeeds iff no account has the name, up to case, or the e-mail; it answers "username" iff some has the name and "email" iff none has the name and some has the e-mail |
| `Effects.LogInByColumns` | src/handlers/api/users_login.cpp:55-68 | a log-in answers with e-mail, name, bio and image of the account with the e-mail iff the password matches its hash, and otherwise says which was wrong |
| `Effects.AccountByColumns` | src/handlers/api/user.cpp:116-130 | the answer to an account update shows e-mail, name, bio and image of the new row, whose columns are the sent values where present and the old ones where absent |
| `Effects.LogInTakesTheSentHash` | src/handlers/api/user.cpp:110-120 | after an update that sent a hash, a log-in succeeds iff the password matches that hash |
| `Effects.CreateByColumns` | src/handlers/api/articles.cpp:128-155 | a create answers with the title, description and body of the request, and the row under the new id holds the same; the slug error means that the slug is there, and no other unique violation comes |
| `Effects.EditByColumns` | src/handlers/api/articles_slug.cpp:117-150 | an update answers with the page of the row it left, each text new where sent and old where not |
| `Effects.DeleteByColumns` | src/handlers/api/articles_slug.cpp:172-181 | a delete answers not found iff no article has the slug; else the caller's article goes, unless a favorite names it, and nothing else does |
| `Effects.CommentByColumnsAlone` | src/handlers/api/articles_slug_comments.cpp:96-108 | a comment answers with the text of the request and the row under its id holds the same |
| `Effects.DropByColumns` | src/handlers/api/articles_slug_comments.cpp:142-153 | that comment of the caller on the article with the slug goes; else not found |
| `Effects.FavoriteByColumns` | src/handlers/api/articles_slug_favorite.cpp:31-49 | the pair of caller and article with the slug is added or removed and the page shows it; the one error is the pair that is there |
| `Effects.FollowByColumns` | src/handlers/api/profiles.cpp:70-123 | the pair of caller and account with the name is added or removed and the profile shows it; the one error is the pair that is there |
| `Effects.EveryRequestByColumns` | src/handlers/api/articles.cpp:128-155 | every request served alone does to the columns, and shows of them, what it should |
| `Effects.InterleavedCreateByColumns` | src/handlers/api/articles.cpp:130-137 | under any interleaving the row a create has just inserted holds title, description, body, author and tags of the request |
| `Effects.InterleavedWriteByColumns` | src/handlers/api/articles_slug.cpp:119-127 | and every other write does to the columns of the moment what its statement should |
| `Effects.InterleavedAnswerByColumns` | src/handlers/api/articles.cpp:147-154 | under any interleaving the article in an answer shows the columns as they are at the read |
| `Effects.SlugPageByColumns` | postgresql/schemas/db_1.sql:349-377 | the page by slug shows the columns of the article that has the slug |
| `Effects.CommentsAtByColumns` | postgresql/schemas/db_1.sql:463-483 | the comments of a page show exactly the comments stored on the article with the slug |
| `Serialisability.WindowRunsAlone` | src/handlers/api/articles_slug_favorite.cpp:31-49 | as long as nobody else writes, what a handler has left to do comes out the same after every event |
| `Serialisability.UndisturbedIsAtomic` | src/handlers/api/articles_slug_favorite.cpp:31-49 | a request among events of which no write is another's is one operation on the abstract store, at the time of its write |
| `Serialisability.OverlappingDeletesAreSerialIff` | src/handlers/api/articles_slug.cpp:172-181 | two deletes at one slug with both lookups first come out as in a serial order iff they are not both by the author of a post without fans; else both succeed and in turn the second finds nothing |
| `Serialisability.OverlappingCommentDeletesAreSerialIff` | src/handlers/api/articles_slug_comments.cpp:142-153 | two deletes of one comment with both checks first come out as in a serial order iff they are not both by its author and found; else both succeed and in turn the second finds nothing |
| `Service.CreateArticle` | src/handlers/api/articles.cpp:128-155 | insert, single row, read-back: the handler code agrees with its step machine run alone, and row and answer have the title, description and body of the request |
| `Service.EditArticle` | src/handlers/api/articles_slug.cpp:117-150 | update, empty result, single row, read-back: the handler code agrees with its step machine run alone |
| `Service.RemoveArticle` | src/handlers/api/articles_slug.cpp:169-181 | lookup then delete: the handler code agrees with its step machine run alone |
| `Service.FavoriteArticle` | src/handlers/api/articles_slug_favorite.cpp:30-49 | lookup, insert, then the row of the lookup is taken and read back: the handler code agrees with its step machine run alone |
| `Service.UnfavoriteArticle` | src/handlers/api/articles_slug_unfavorite.cpp:30-49 | lookup, delete, read-back: the handler code agrees with its step machine run alone |
| `Service.PostComment` | src/handlers/api/articles_slug_comments.cpp:96-108 | insert, single row, read-back: the handler code agrees with its step machine run alone |
| `Service.DeleteComment` | src/handlers/api/articles_slug_comments.cpp:142-153 | check then delete: the handler code agrees with its step machine run alone |
| `Service.ChangeFollowing` | src/handlers/api/profiles.cpp:69-123 | lookup by name, then follow or unfollow by id: the handler code agrees with its step machine run alone |
| `Service.Register` | src/handlers/api/users.cpp:57-85 | insert, unique violations mapped to their field, e-mail, name and a token for the id sent back: the handler code agrees with its step machine run alone, and does to the columns what `Effects.RegistrationByColumns` says |
| `Service.EditUser` | src/handlers/api/user.cpp:116-130 | update and returned row, no error caught: the handler code agrees with its step machine run alone; answer and row have the sent values where present and the old ones where absent |
| `Service.LogIn` | src/handlers/api/users_login.cpp:55-68 | lookup by e-mail, then the password, refused by either name, else e-mail, name, bio and image of the account and a token for its id |
| `Service.Handle` | src/handlers/api/articles.cpp:128-155 | any request served alone changes the store and answers as one abstract operation, does to the columns what it should, and never ends in a row-count mismatch |
| `Service.ListArticles` | src/handlers/api/articles.cpp:57-76 | the list that is built is a slice of some newest-first listing of the matching articles: row i shows the columns of article offset + i, at most 20 rows unless told otherwise |
| `Service.ReadFeed` | src/handlers/api/articles_feed.cpp:46-61 | the same for the feed, where an absent limit means all rows after the offset |
| `Service.ReadArticle` | src/handlers/api/articles_slug.cpp:32-48 | the page of the article at the slug for this viewer, column by column, or not found |
| `Service.ReadComments` | src/handlers/api/articles_slug_comments.cpp:34-52 | exactly the comments stored on the article at the slug, each once |
| `Service.ReadProfile` | src/handlers/api/profiles.cpp:33-50 | the profile of the account with that name, or not found |
| `Requests.ValidateEmail` | src/common/utils.cpp:9-24 | one pass decides the pattern, with the three errors told apart |
| `Requests.NormaliseTags` | src/handlers/api/articles.cpp:93-99 | in place: all tags lowered iff all sizes are right; otherwise exactly the tags before the first bad one are |
| `Requests.LoweredLetters` | src/handlers/api/articles.cpp:97 | lowering leaves no capital, makes the n-th capital the n-th small letter and leaves other characters alone |
| `Requests.ParseNewArticle` | src/handlers/api/articles.cpp:85-101 | a form is accepted iff all its fields are, and otherwise names the first that is not |
| `Requests.NewArticleLengths` | src/handlers/api/articles.cpp:87-96 | the accepted lengths in numbers: 4 to 255 for the title, 6 to 8191, 6 to 65534, 3 to 255 for a tag |
| `Requests.ParseArticlePatch` | src/handlers/api/articles_slug.cpp:57-90 | an update is accepted iff present fields are fine and there is one; the tags do not reach the statement |
| `Requests.ArticlePatchLengths` | src/handlers/api/articles_slug.cpp:62-88 | the same for an update, with 4 to 254 for the title |
| `Requests.CreatableIsUpdatableIff` | src/handlers/api/articles_slug.cpp:57-90 | a form that creates is also accepted as an update iff its title does not have 255 characters, and always without its title |
| `Requests.TagsOfAnUpdateAreDropped` | src/handlers/api/articles_slug.cpp:75-85 | an accepted update of tags alone changes only the date |
| `Requests.FormTagsAreShown` | src/handlers/api/articles.cpp:93-99 | the tags an accepted form leads to are its tags in lower case, sorted, each once, under any interleaving |
| `Requests.AcceptedFormFitsButForSlug` | src/handlers/api/articles.cpp:87-96 | an accepted form is too long for a column iff the slug of its title is |
| `Requests.ParseComment` | src/handlers/api/articles_slug_comments.cpp:61-71 | a comment is accepted iff it has 5 to 16383 characters, and its text and slug reach the statement |
| `Requests.AcceptedCommentFits` | postgresql/schemas/db_1.sql:67 | an accepted comment always fits its column |
| `Requests.ParseAccountPatch` | src/handlers/api/user.cpp:56-84 | accepted iff every present field is fine and there is one |
| `Requests.AccountLengths` | src/handlers/api/user.cpp:58-82 | the accepted lengths in numbers: 3 to 19 for the name, 6 to 99, 4 to 65534, 4 to 254 |
| `Requests.AcceptedAccountFitsButForEmail` | src/handlers/api/user.cpp:116-120 | an accepted account update is too long for a column iff its e-mail is |
| `Requests.AccountUpdateCrashesIff` | src/handlers/api/user.cpp:116-130 | an accepted account update ends in an uncaught error iff its e-mail is too long or another account has its name or e-mail, and then changes nothing |
| `Requests.ValidEmailsMayNotFit` | src/common/utils.cpp:14-22 | a run of letters of any length makes a valid address, so some valid addresses do not fit the column |
| `Requests.AuthenticatesIff` | src/handlers/auth/auth.cpp:12-51 | which headers authenticate, as whom, which are let through anonymously and which are refused |
| `Requests.IssuedTokensAuthenticate` | src/handlers/auth/auth.cpp:47-50 | a token made for an id authenticates as that account in every later world |
| `Email.AutomatonIsAddress` | src/common/utils.cpp:19-20 | the automaton accepts exactly: word characters with at most one dot, not first, then at least two nonempty labels |
| `Email.MatchesPattern` | src/common/utils.cpp:19-20 | whatever the ambiguous pattern matches is such an address |
| `Email.AddressMatches` | src/common/utils.cpp:19-20 | and the pattern matches every such address |
| `Email.PatternAutomatonAndDescriptionAgree` | src/common/utils.cpp:19-20 | pattern, one-pass automaton and description let through the same strings |
| `Email.WordCharacters` | src/common/utils.cpp:19 | which characters are word characters, by code |
| `Patches.UserPatchesMerge` | postgresql/schemas/db_1.sql:726-755 | after p has succeeded, q answers as the merged patch would have, errors included, and leaves the same database |
| `Patches.UserPatchesAreOne` | postgresql/schemas/db_1.sql:726-755 | any run of successful account updates is one |
| `Patches.PatchedOne` | postgresql/schemas/db_1.sql:699-724 | an update that finds its article keeps id, author and creation date, and the article is then at the slug the patch leaves |
| `Patches.ArticlePatchesMerge` | postgresql/schemas/db_1.sql:699-724 | the same merge for articles when q goes to the slug p has left |
| `Patches.ArticlePatchesAreOne` | postgresql/schemas/db_1.sql:699-724 | any run of successful updates of one article is one |

## Left out

- HTTP routing, JSON, component wiring, configuration: plumbing. A JSON member that is null or of the wrong type is not told apart from a missing one.
- ICU transliteration, CITEXT folding and collation: uninterpreted, so nothing is said about which titles share a slug.
- BCrypt and JWT (RFC 7519): the hash, the password test and the verified id claim are uninterpreted, the token in an answer is its id, expiry is not modelled, and neither is a verified token whose claim is not an integer.
- Replicas, pools, timeouts, and isolation within a statement: each statement reads and writes one database atomically.
- Trailing blanks that an assignment to VARCHAR would cut off: a text over the limit is always an error here.
- NULL elements inside a tag list, and the NULL names the tags column would allow.
- Other integrity errors than the first: when several constraints are violated, the primary key is checked before the other unique keys in the order they are declared.
- `lexical_cast` failures and the two separate errors for a negative limit and a negative offset: one `BadBounds`.
- The order of rows with equal dates and of comments: any order the scan gives.
- The current-user query, the handler for all tags and the field copies in `src/dto/profile.cpp`, `src/dto/user.cpp` and `src/dto/comment.cpp`: only easy members.
- The checks of registration and log-in forms: they are the same size and e-mail checks again.
- Service.Handle: one request at a time; interleavings are the subject of `Interleaving` and `Outcomes`, on values.
- Queries and the abstract store are functions of table values, not loops: the SQL that they model is declarative.
