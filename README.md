# InforumBackend core, modelled in Dafny

InforumBackend is an ASP.NET Core Web API for a students' blog and forum. Its controllers read
and write relational tables: blog posts, comments and sub-comments, forum queries, answers,
sub-answers, votes and stars, categories, a Home row and a FirstRun row. Accounts and roles live
in an ASP.NET Identity store. This project models the rules those controllers put on the tables.
The relational store is one object, `Data.Database`, with one sequence field per table and the
key counter that hands out new `long` keys. Each controller action is a method on that object.
Its `modifies` clause names the tables it may change, field by field. Its `ensures` ties the
new tables and the status code to a pure specification function, and lemmas prove what that
function promises.
`Data.Database.Valid` is the store's identity invariant: every key in a `long`-keyed table lies
below the key counter, which is at least 1, so the next key drawn is never already in use. Every
action that writes a keyed table or draws a key requires and keeps it, and each table is written
through a save method that demands its rows' keys were already handed out.

The modules follow the source:

- `Slugs` is the slug generator. Three controllers carry a copy of it. It lower-cases, strips
  characters outside `[a-z0-9\s-]`, collapses whitespace runs, trims and turns spaces into
  dashes, then appends `-<id>` in two of the copies. It is proved equal to a reference
  definition: the words of the stripped title joined by `-`.
- `Pagination` and `Listing` cover the `PaginationMetadata` header and the shared
  order-by-descending / skip / take shape of every list endpoint.
- `Tables`, `SlugTables` and `Cascade` hold generic table operations used by several
  controllers:
  - filter, find by key, remove at, replace by key;
  - the invariant "every stored slug is derived from its row";
  - the parent-with-children delete.
- `Entities` holds the row records. `Data` holds the store.
- `ForumQueryController`, `BlogPostsController`, `CommentsController`,
  `ForumAnswerController`, `UserController` and `FirstRunController` model one controller each.

## Model

| member | source | states |
|---|---|---|
| Slugs.Strip | Controllers/ForumQueryController.cs:427 | the regex removal leaves only lower-case letters, digits, whitespace and dashes, and never lengthens the text |
| Slugs.ToLowerAt | Controllers/ForumQueryController.cs:424 | each character is lower-cased on its own: A-Z become a-z and every other character stays |
| Slugs.StripKeepsExactly | Controllers/ForumQueryController.cs:427 | a character survives exactly when it is a lower-case letter, a digit, whitespace or a dash, and a text made only of those comes back unchanged |
| Slugs.StripAppend | Controllers/ForumQueryController.cs:427 | stripping a concatenation strips each part on its own, so the removal looks at one character at a time |
| Slugs.Collapse | Controllers/ForumQueryController.cs:429 | collapsing never lengthens the text |
| Slugs.CollapseNoRuns | Controllers/ForumQueryController.cs:429 | afterwards every whitespace character is a plain space, no two whitespace characters are adjacent, and a leading non-space character stays first |
| Slugs.Trim | Controllers/ForumQueryController.cs:429 | the trimmed text neither starts nor ends with whitespace and is no longer than the input |
| Slugs.DashesAt | Controllers/ForumQueryController.cs:431 | each whitespace character becomes a dash, every other character stays, and no whitespace is left |
| Slugs.SlugBaseIsJoinedWords | Controllers/ForumQueryController.cs:424-431 | lower-case, strip, collapse, trim and dash yield exactly the whitespace-separated words of the stripped title joined by single dashes: interior runs give one dash, and leading or trailing whitespace gives none |
| Slugs.SlugBase | Controllers/ForumQueryController.cs:424-431 | every character of a slug body is a lower-case letter, a digit or a dash |
| Slugs.EmptyBody | Controllers/ForumQueryController.cs:424-433 | a title with no letter, digit or dash gives an empty body, so the slug is "-" followed by the id |
| Slugs.Slug | Controllers/ForumQueryController.cs:433 | for a non-negative id the text after the slug's last dash is the id in decimal |
| Slugs.IntToString | Controllers/ForumQueryController.cs:433 | the id's decimal text is non-empty, starts with a minus sign exactly for a negative id, and reads back as the id when the id is not negative |
| Slugs.DistinctIdsDistinctSlugs | Controllers/BlogPostsController.cs:228-242 | two rows with different ids never receive the same slug, whatever their titles |
| Slugs.ExampleShortTitle | Controllers/BlogPostsController.cs:228-242 | "A b!" with id 7 gives "a-b-7" |
| Slugs.ExampleSpacedTitle | Controllers/FirstRunController.cs:230-242 | " x  y " gives "x-y" without a suffix |
| Slugs.ExampleAllSpaces | Controllers/ForumQueryController.cs:424-433 | an all-space title with id 1 gives "-1" |
| Slugs.ExampleGeneral | Controllers/FirstRunController.cs:230-242 | "General" gives "general" |
| Pagination.CeilDiv | Models/PaginationMetadata.cs:15 | the result is the least integer not below the quotient, for either sign of the divisor |
| Pagination.Create | Models/PaginationMetadata.cs:11-16 | the count and current page are stored as passed; the page count is the ceiling of count over page size |
| Pagination.TotalPagesFormula | Models/PaginationMetadata.cs:15 | for a positive page size and non-negative count, the page count equals (count + size - 1) / size |
| Pagination.TotalPagesNonNegative | Models/PaginationMetadata.cs:15 | a non-negative count gives a non-negative page count |
| Pagination.EmptyListingHasNoNext | Models/PaginationMetadata.cs:9-15 | a count of 0 gives 0 pages and no next page for every page from 1 on |
| Pagination.HasNextIffRowsRemain | Models/PaginationMetadata.cs:9-15 | HasNext holds exactly when rows lie beyond the current page |
| Listing.HasPreviousIffSkips | Models/PaginationMetadata.cs:8 | HasPrevious holds exactly when the page skips at least one row |
| Pagination.ExampleTwentyFiveByTen | Models/PaginationMetadata.cs:8-15 | 25 rows in pages of 10 give 3 pages; page 3 has a previous page and no next; page 1 has a next and no previous |
| Listing.SortDesc | Controllers/ForumQueryController.cs:35 | OrderByDescending yields the same rows (as a multiset), in non-increasing key order |
| Listing.InsertSorted | Controllers/ForumQueryController.cs:35 | inserting a row into an ordered list keeps it ordered |
| Listing.Page | Controllers/ForumQueryController.cs:57 | Skip/Take returns the rows from offset (page - 1) * size, at most size of them, and none when the offset passes the end |
| Listing.RowOnItsPage | Controllers/ForumQueryController.cs:57 | row k of the ordered list is entry k mod size of page k / size + 1, so the pages cover the list with no gap and no overlap |
| Listing.PageEmptyIffBeyondTotal | Controllers/ForumQueryController.cs:57-60 | a page is empty exactly when its number exceeds the header's page count |
| Listing.HasNextIffNextPageNonEmpty | Controllers/ForumQueryController.cs:57-60 | the header's HasNext holds exactly when the following page has rows |
| Listing.PageRowsFrom | Controllers/ForumQueryController.cs:57 | a page holds only rows of the list it was cut from |
| Listing.PageSorted | Controllers/ForumQueryController.cs:57 | a page of an ordered list is ordered |
| Listing.Paginate | Controllers/ForumQueryController.cs:57-60 | the header counts every matching row, carries the page number, and bounds the page count by ceiling division |
| Listing.Select | Controllers/BlogPostsController.cs:28-33 | the rows are exactly the requested page of the matching rows in descending key order; the header is built from the number of matching rows; every returned row is stored and passes the filter |
| Listing.OnSomePage | Controllers/BlogPostsController.cs:33 | every row of a list lies on some page of it |
| Listing.SelectListsEveryMatch | Controllers/BlogPostsController.cs:28-33 | no matching row is lost to paging: each stored row that passes the filter is returned on some page |
| Tables.WhereMembers | Controllers/CommentsController.cs:35 | a row is in the filtered list exactly when it is in the table and passes the filter |
| Tables.WhereAllKept | Controllers/CommentsController.cs:35 | every row of the filtered list passes the filter |
| Tables.KeepWhere | Controllers/CommentsController.cs:182-187 | the loop that collects the rows to keep computes Where |
| Tables.IndexOf | Controllers/CommentsController.cs:169 | -1 exactly when no row has the key; otherwise the position of the first row with the key |
| Tables.RemoveAt | Controllers/CommentsController.cs:193 | the rows before the removed position stay and the rows after it move down by one |
| Tables.ReassignAt | Controllers/UserController.cs:886-890 | each row owned by the old owner now names the new one, and every other row is unchanged |
| Tables.ReassignEach | Controllers/UserController.cs:886-890 | the foreach loop computes Reassign |
| Tables.ReassignLeavesNone | Controllers/UserController.cs:886-890 | after reassignment no row names the old owner |
| Tables.Update | Controllers/CommentsController.cs:92-134 | BadRequest exactly when the path id and the body id differ; NotFound exactly when they agree and no row has the key; on failure the table is unchanged; on success the row found under the key is replaced by the body |
| Tables.BoundIsFresh | Migrations/20220117122957_AddModelForForumAnswers.cs:22-23 | when every key lies below the generator, no row has the generator's next key and every key is non-negative |
| Tables.KeysBelowAppend | Migrations/20220117122957_AddModelForForumAnswers.cs:22-23 | appending a row under the generator's key and moving the generator on keeps every key below it |
| Tables.KeysBelowSameKeys | Migrations/20220117122957_AddModelForForumAnswers.cs:22-23 | a table whose rows keep their keys position by position keeps them below the generator |
| Tables.KeysBelowRemoveAt | Migrations/20220117122957_AddModelForForumAnswers.cs:22-23 | removing a row keeps every key below the generator |
| Tables.KeysBelowWhere | Migrations/20220117122957_AddModelForForumAnswers.cs:22-23 | filtering a table keeps every key below the generator |
| Tables.KeysBelowMembers | Migrations/20220117122957_AddModelForForumAnswers.cs:22-23 | a table holding only rows of another keeps that table's keys below the generator |
| Data.Database.constructor | Migrations/20220117122957_AddModelForForumAnswers.cs:22-23 | an empty store whose generator starts at 1 satisfies the identity invariant Valid |
| Data.Database.NewKey | Controllers/BlogPostsController.cs:155-156 | the key handed out is the counter's value and the counter moves on by one, so no key is handed out twice; the identity invariant Valid is kept and the key is at least 1 |
| Data.Database.SaveBlogPosts | Controllers/BlogPostsController.cs:121 | the post table becomes the rows given; when their keys were handed out already, Valid is kept |
| Data.Database.SaveComments | Controllers/CommentsController.cs:108 | the comment table becomes the rows given; when their keys were handed out already, Valid is kept |
| Data.Database.SaveSubComments | Controllers/CommentsController.cs:188 | the sub-comment table becomes the rows given; when their keys were handed out already, Valid is kept |
| Data.Database.SaveForumQueries | Controllers/ForumQueryController.cs:149 | the query table becomes the rows given; when their keys were handed out already, Valid is kept |
| Data.Database.SaveForumAnswers | Controllers/ForumAnswerController.cs:106 | the answer table becomes the rows given; when their keys were handed out already, Valid is kept |
| Data.Database.SaveForumSubAnswers | Controllers/ForumAnswerController.cs:187 | the sub-answer table becomes the rows given; when their keys were handed out already, Valid is kept |
| Data.Database.SaveVotes | Controllers/ForumQueryController.cs:266 | the vote table becomes the rows given; when their keys were handed out already, Valid is kept |
| Data.Database.SaveStars | Controllers/UserController.cs:946 | the star table becomes the rows given; when their keys were handed out already, Valid is kept |
| Data.Database.SaveCategories | Controllers/FirstRunController.cs:184 | the category table becomes the rows given; when their keys were handed out already, Valid is kept |
| Data.Database.SaveHomes | Controllers/FirstRunController.cs:196 | the home table becomes the rows given; when their keys were handed out already, Valid is kept |
| Data.Database.SaveFirstRuns | Controllers/FirstRunController.cs:207 | the first-run table becomes the rows given; when their keys were handed out already, Valid is kept |
| Data.Database.SaveVoteTables | Controllers/ForumQueryController.cs:349 | one save writes the query and vote tables; when their keys were handed out already, Valid is kept |
| ForumQueryController.ChooseFilter | Controllers/ForumQueryController.cs:33-52 | exactly one filter applies, the first non-empty parameter wins: category slug, then author, then search, then vote sort, else all |
| ForumQueryController.ContainsAt | Controllers/ForumQueryController.cs:41-43 | the title-contains test holds exactly when some window of the title spells the search text |
| ForumQueryController.MatchesMeaning | Controllers/ForumQueryController.cs:33-52 | the category filter admits a query exactly when a stored category with the query's category key has the slug; the author filter compares author ids; the search filter admits exactly the titles containing the text; the two sorts admit every query |
| ForumQueryController.OrderKey | Controllers/ForumQueryController.cs:35-52 | the vote-sort branch orders by the vote counter, every other branch by posting date |
| ForumQueryController.GetForumQuery | Controllers/ForumQueryController.cs:27-69 | the rows are exactly the requested page of the queries that pass the chosen filter, in descending order of the chosen key; the header is built from the number of queries that pass; every returned row is stored and passes |
| ForumQueryController.UpdateQuery | Controllers/ForumQueryController.cs:134-145 | BadRequest exactly when the path id and body id differ; NotFound exactly when they agree and no query has the id; on failure nothing changes; on success the row under the id is replaced by the body with its slug recomputed from its title and the id |
| ForumQueryController.UpdateQueryKeepsSlugs | Controllers/ForumQueryController.cs:145 | an update keeps every stored slug derived from its own row, so all slugs stay distinct |
| ForumQueryController.AddQuery | Controllers/ForumQueryController.cs:186-196 | a create appends the query under the drawn key, and the second save sets its slug from the title and that key |
| ForumQueryController.AddQueryKeepsSlugs | Controllers/ForumQueryController.cs:186-196 | a create under a fresh key keeps every slug derived and all keys and all slugs distinct |
| ForumQueryController.QueryAddedUnderFreshKey | Controllers/ForumQueryController.cs:186-203 | the two saves store the row AddQuery describes; under a generator above every stored key its keys stay below the moved generator, and derived slugs with distinct keys stay so |
| ForumQueryController.PutForumQuery | Controllers/ForumQueryController.cs:130-176 | the action leaves the query table and status as UpdateQuery says, touches no other table, and keeps Valid |
| ForumQueryController.PostForumQuery | Controllers/ForumQueryController.cs:182-217 | the action stores the row AddQuery describes and draws one key; it keeps Valid, and a store whose slugs are derived with distinct keys keeps derived slugs, distinct keys and distinct slugs |
| ForumQueryController.Bump | Controllers/ForumQueryController.cs:318-344 | the counter of one query moves by the delta, and every other row and field is unchanged |
| ForumQueryController.Toggle | Controllers/ForumQueryController.cs:291-351 | NotFound exactly for an unknown query, with nothing changed; otherwise Ok, and only vote counters of queries change; the vote rows change as ToggleVoteRows states and the counts as ToggleMovesCounts states |
| ForumQueryController.ToggleMovesCounts | Controllers/ForumQueryController.cs:306-351 | the number of vote rows on the voted query falls by 1 when the user had voted and rises by 1 otherwise, and the query table becomes Bump by the same step; every other query keeps its number of vote rows and its counter |
| ForumQueryController.ToggleVoteRows | Controllers/ForumQueryController.cs:306-351 | on an existing query the vote table changes by exactly one row: casting adds the ballot to the multiset of rows, withdrawing removes one row with the user's (query, user) pair; every other row stays |
| ForumQueryController.ToggleKeepsCounters | Controllers/ForumQueryController.cs:306-351 | if every counter equals its number of vote rows before the toggle, that still holds after it |
| ForumQueryController.ToggleKeepsPairsUnique | Controllers/ForumQueryController.cs:306-351 | at most one vote row per (query, user) pair stays true |
| ForumQueryController.ToggleFlipsStatus | Controllers/ForumQueryController.cs:306-351 | on an existing query the user's voted status flips |
| ForumQueryController.BumpKeepsIndex | Controllers/ForumQueryController.cs:318-344 | changing a counter does not change which row a key lookup finds |
| ForumQueryController.ToggleTwiceRestores | Controllers/ForumQueryController.cs:306-351 | toggling twice from a state without the user's vote restores both tables |
| ForumQueryController.WithdrawVote | Controllers/ForumQueryController.cs:309-324 | the vote row found is removed and the counter drops by one, in one save that keeps Valid |
| ForumQueryController.CastVote | Controllers/ForumQueryController.cs:334-350 | the ballot is appended under the drawn key and the counter rises by one, in one save that keeps Valid |
| ForumQueryController.VoteForumQuery | Controllers/ForumQueryController.cs:286-366 | the action changes the query and vote tables as Toggle says, with the new vote row under the drawn key; a key is drawn exactly when a vote row is added; Valid is kept |
| ForumQueryController.VoteStatusForumQuery | Controllers/ForumQueryController.cs:372-406 | NotFound exactly for an unknown query; otherwise Ok and whether the user has a vote on it; nothing changes |
| ForumQueryController.DeleteQuery | Controllers/ForumQueryController.cs:226-266 | NotFound with nothing changed for an unknown id; otherwise Ok |
| ForumQueryController.DeleteQueryAnswers | Controllers/ForumQueryController.cs:239-253 | an answer survives exactly when it belongs to another query |
| ForumQueryController.DeleteQuerySubAnswers | Controllers/ForumQueryController.cs:242-248 | a sub-answer survives exactly when its answer does not belong to the deleted query |
| ForumQueryController.DeleteQueryVotes | Controllers/ForumQueryController.cs:245-258 | a vote survives exactly when it is on another query |
| ForumQueryController.DeleteQueryQueries | Controllers/ForumQueryController.cs:263 | exactly one query row goes and every query under another key stays; with unique keys none under the id is left |
| ForumQueryController.DeleteQueryKeepsAnswerReferences | Controllers/ForumQueryController.cs:239-263 | surviving answers still belong to an existing query |
| ForumQueryController.DeleteQueryKeepsSubAnswerReferences | Controllers/ForumQueryController.cs:239-263 | surviving sub-answers still belong to an existing answer |
| ForumQueryController.DeleteQueryKeepsVoteReferences | Controllers/ForumQueryController.cs:245-263 | surviving votes are still on an existing query |
| ForumQueryController.DeleteQueryKeepsReferences | Controllers/ForumQueryController.cs:222-280 | the cascade leaves no dangling answer, sub-answer or vote |
| ForumQueryController.DeleteForumQuery | Controllers/ForumQueryController.cs:222-280 | the action changes the four forum tables as DeleteQuery says and nothing else, and keeps Valid |
| SlugTables.DerivedSlugsUnique | Controllers/BlogPostsController.cs:115-162 | with unique natural keys, slugs derived from title and key are unique |
| SlugTables.InsertKeepsSlugs | Controllers/BlogPostsController.cs:159-162 | appending a row with a fresh key and a derived slug keeps every slug derived and unique |
| SlugTables.ReplaceKeepsSlugs | Controllers/BlogPostsController.cs:115 | replacing a row by one under the same key with a derived slug keeps every slug derived and unique |
| BlogPostsController.GetBlogPost | Controllers/BlogPostsController.cs:24-46 | the rows are exactly the requested page of all posts, newest first; the header is built from the number of posts |
| BlogPostsController.UpdatePost | Controllers/BlogPostsController.cs:105-115 | BadRequest exactly when the path id and body id differ; NotFound exactly when they agree and no post has the id; on failure nothing changes; on success the row under the id is replaced by the body with its slug recomputed from its title and the id, whatever slug the body carried |
| BlogPostsController.UpdatePostKeepsSlugs | Controllers/BlogPostsController.cs:115 | an update keeps every stored slug derived and all slugs distinct |
| BlogPostsController.AddPost | Controllers/BlogPostsController.cs:155-167 | the post is appended under the drawn key, and the stored slug is generateSlug(title, key) |
| BlogPostsController.AddPostKeepsSlugs | Controllers/BlogPostsController.cs:155-167 | a create under a fresh key keeps every slug derived and all keys and all slugs distinct |
| BlogPostsController.AddedUnderFreshKey | Controllers/BlogPostsController.cs:155-167 | the two saves store the row AddPost describes; under a generator above every stored key its keys stay below the moved generator, and derived slugs with distinct keys stay so |
| BlogPostsController.RemovePost | Controllers/BlogPostsController.cs:186-200 | NotFound exactly when no post has the id, with nothing changed; otherwise one row fewer |
| BlogPostsController.RemovePostExactly | Controllers/BlogPostsController.cs:186-200 | every other post stays, and with unique keys no post under the id is left |
| BlogPostsController.PutBlogPost | Controllers/BlogPostsController.cs:103-144 | the action changes the post table as UpdatePost says and nothing else, and keeps Valid |
| BlogPostsController.PostBlogPost | Controllers/BlogPostsController.cs:150-179 | the action stores the row AddPost describes and draws one key; it keeps Valid, and a store whose slugs are derived with distinct keys keeps derived slugs, distinct keys and distinct slugs |
| BlogPostsController.DeleteBlogPost | Controllers/BlogPostsController.cs:184-213 | the controller touches only the post table, as RemovePost says, and keeps Valid |
| Cascade.DropChildren | Controllers/CommentsController.cs:182-187 | a child row survives exactly when it belongs to another parent, and the child table never grows |
| Cascade.DropChildrenEach | Controllers/CommentsController.cs:182-187 | the RemoveRange loop computes DropChildren |
| Cascade.DeleteWithChildren | Controllers/CommentsController.cs:169-194 | NotFound exactly when no parent has the key, with nothing changed; otherwise one parent fewer and the parent's children removed |
| Cascade.DeleteWithChildrenExactly | Controllers/CommentsController.cs:182-194 | every other parent stays, every child of another parent stays, and with unique keys no parent under the id is left |
| Cascade.DropChildrenKeepsAttached | Controllers/ForumAnswerController.cs:187 | the state after the first save still has every child attached to an existing parent |
| Cascade.DeleteWithChildrenKeepsAttached | Controllers/ForumAnswerController.cs:182-192 | after both saves every remaining child still has an existing parent |
| CommentsController.GetComments | Controllers/CommentsController.cs:26-59 | a postId other than 0 returns exactly the requested page of that post's comments, newest first, and counts exactly those; 0 does the same over all comments |
| CommentsController.CountedIffOnPost | Controllers/CommentsController.cs:33-37 | a comment is counted in a post's listing exactly when it is on that post |
| CommentsController.PutComment | Controllers/CommentsController.cs:92-134 | BadRequest with nothing stored when the ids differ, NotFound for an unknown id, otherwise the row is replaced; Valid is kept |
| CommentsController.PostComment | Controllers/CommentsController.cs:140-160 | the comment is appended under the drawn key, and Valid is kept |
| CommentsController.DeleteComment | Controllers/CommentsController.cs:165-209 | the comment and sub-comment tables change as DeleteWithChildren says, and Valid is kept |
| ForumAnswerController.GetForumAnswer | Controllers/ForumAnswerController.cs:26-57 | a queryId other than 0 returns exactly the requested page of that query's answers, newest first, and counts exactly those; 0 does the same over all answers |
| ForumAnswerController.CountedIffOnQuery | Controllers/ForumAnswerController.cs:32-35 | an answer is counted in a query's listing exactly when it answers that query |
| ForumAnswerController.PutForumAnswer | Controllers/ForumAnswerController.cs:90-132 | BadRequest with nothing stored when the ids differ, NotFound for an unknown id, otherwise the row is replaced; Valid is kept |
| ForumAnswerController.PostForumAnswer | Controllers/ForumAnswerController.cs:138-159 | the answer is appended under the drawn key, and Valid is kept |
| ForumAnswerController.DeleteForumAnswer | Controllers/ForumAnswerController.cs:164-206 | the answer and sub-answer tables change as DeleteWithChildren says: sub-answers saved away first, then the answer; Valid is kept |
| ForumAnswerController.DeleteAnswerKeepsSubAnswerReferences | Controllers/ForumAnswerController.cs:182-192 | no sub-answer is left under a removed answer |
| ForumAnswerController.DeleteAnswerKeepsForumReferences | Controllers/ForumAnswerController.cs:164-206 | the whole forum stays consistent: answers keep their queries, sub-answers their answers, votes their queries |
| UserController.Heir | Controllers/UserController.cs:878 | the default account is found exactly when some account has the address defaultUser@mail.com |
| UserController.HandOver | Controllers/UserController.cs:881-893 | the step fails only when the user owns a row and there is no default account; otherwise the table keeps its length |
| UserController.HandOverEach | Controllers/UserController.cs:883-893 | the foreach loop computes HandOver |
| UserController.HandOverKeepsKeys | Controllers/UserController.cs:881-896 | a hand-over changes owners only, so the table's keys stay below the generator |
| UserController.HandOverBlogPosts | Controllers/UserController.cs:881-896 | the step goes through exactly when HandOver does, leaves the post table as HandOver says (unchanged when it stops), changes nothing else in the snapshot and keeps Valid |
| UserController.HandOverComments | Controllers/UserController.cs:899-914 | the same for the comment table |
| UserController.HandOverSubComments | Controllers/UserController.cs:917-932 | the same for the sub-comment table |
| UserController.HandOverForumQueries | Controllers/UserController.cs:952-967 | the same for the query table |
| UserController.HandOverForumAnswers | Controllers/UserController.cs:970-985 | the same for the answer table |
| UserController.HandOverForumSubAnswers | Controllers/UserController.cs:988-1003 | the same for the sub-answer table |
| UserController.RemoveStarsOf | Controllers/UserController.cs:935-949 | the star table keeps exactly the stars of other users, nothing else in the snapshot changes, and Valid is kept |
| UserController.RemoveVotesOf | Controllers/UserController.cs:1006-1020 | the vote table keeps exactly the votes of other users, nothing else in the snapshot changes, and Valid is kept |
| UserController.HandOverPassesOn | Controllers/UserController.cs:881-1003 | with an heir, the user's rows pass to the heir row by row and every other row is unchanged |
| UserController.PassedOnLeavesNone | Controllers/UserController.cs:881-1003 | after the hand-over no row is owned by the user |
| UserController.HandOverWritings | Controllers/UserController.cs:881-949 | the blog half changes only posts, comments, sub-comments and stars |
| UserController.HandOverForum | Controllers/UserController.cs:951-1020 | the forum half changes only queries, answers, sub-answers and votes |
| UserController.RemoveUser | Controllers/UserController.cs:866-1049 | NotFound with nothing changed exactly when no account has the key; Ok only when the identity store deletes the account, and then one account fewer |
| UserController.DeleteWritings | Controllers/UserController.cs:881-949 | the action changes the blog tables as HandOverWritings says and keeps Valid |
| UserController.DeleteForumWork | Controllers/UserController.cs:951-1020 | the action changes the forum tables as HandOverForum says and keeps Valid |
| UserController.DeleteUser | Controllers/UserController.cs:862-1051 | the action changes the nine tables as RemoveUser says and keeps Valid |
| UserController.RemoveUserPassesRowsOn | Controllers/UserController.cs:878-1003 | with the default account present, the six authored tables pass the user's rows to it and keep all others; Ok exactly when the account deletion succeeds |
| UserController.RemoveUserDropsStarsVotesAccount | Controllers/UserController.cs:935-949 | exactly the user's stars and votes are removed; other accounts stay; after Ok no account under the key is left |
| UserController.RemoveUserLeavesNoAuthorship | Controllers/UserController.cs:881-1003 | after a deletion with an heir, no row of the six authored tables names the user |
| UserController.RemoveUserWithoutHeirChangesNothing | Controllers/UserController.cs:878-893 | without the default account, a user with a blog post cannot be deleted and nothing changes |
| UserController.RemoveUserWithoutHeirIsPartial | Controllers/UserController.cs:933-964 | without the default account, the star removal already saved stays saved when the forum hand-over fails |
| UserController.RemoveUserBreaksVoteCounters | Controllers/UserController.cs:1006-1020 | a store whose counters match its vote rows no longer does after deleting a voter, since the counters are not decremented |
| UserController.Restrict | Controllers/UserController.cs:791-849 | NotFound exactly for an unknown key; on success only that account's restricted flag flips |
| UserController.RestrictTwiceRestores | Controllers/UserController.cs:802-828 | restricting twice restores the account table exactly |
| UserController.RestrictUser | Controllers/UserController.cs:785-856 | the action changes the account table as Restrict says |
| UserController.CheckAccess | Controllers/UserController.cs:552-558 | a missing target or requester is a fault; access granted names the target's position |
| UserController.SelfMayModify | Controllers/UserController.cs:558 | the owner of an account may always modify it |
| UserController.AdminMayModify | Controllers/UserController.cs:558 | an Admin may modify any existing account |
| UserController.OthersMayNotModify | Controllers/UserController.cs:558-596 | a non-Admin asking about another account is refused |
| UserController.EditProfile | Controllers/UserController.cs:560-567 | the submitted email becomes both email and user name; the other profile fields are overwritten; key, password, roles and flag are kept |
| UserController.UpdateProfile | Controllers/UserController.cs:548-603 | Forbidden exactly when refused; Ok exactly when granted and saved; on failure nothing changes; other accounts never change |
| UserController.UpdateUser | Controllers/UserController.cs:548-603 | the action changes the account table as UpdateProfile says |
| UserController.ResetPassword | Controllers/UserController.cs:608-655 | Forbidden exactly when refused; Ok exactly when granted and the reset succeeds; other accounts never change |
| UserController.ChangePassword | Controllers/UserController.cs:608-655 | the action changes the account table as ResetPassword says |
| UserController.ChangeRole | Controllers/UserController.cs:736-779 | an unknown user gives BadRequest; an unknown role gives NotFound; neither changes anything; other accounts never change |
| UserController.ChangeRoleSwapsFirstRole | Controllers/UserController.cs:751-754 | on success the user loses the role listed first and gains the new one, with the rest of the account kept |
| UserController.ChangeRoleOfSingleRoleUser | Controllers/UserController.cs:740-754 | a single-role user asked to take an existing role ends with exactly that role |
| UserController.ChangeRoleToHeldRoleDropsFirst | Controllers/UserController.cs:751-771 | when the new role is already held the addition fails with BadRequest, but the first role stays removed |
| UserController.UpdateUserRole | Controllers/UserController.cs:732-779 | the action changes the account table as ChangeRole says |
| FirstRunController.FirstRunStatus | Controllers/FirstRunController.cs:38-62 | IsOpen exactly when no FirstRun row exists |
| FirstRunController.NewAdmin | Controllers/FirstRunController.cs:92-104 | the administrator's email doubles as user name; the account starts unrestricted and without roles |
| FirstRunController.NewDefaultUser | Controllers/FirstRunController.cs:137-153 | the default account has the address defaultUser@mail.com as both email and user name |
| FirstRunController.SeedRoles | Controllers/FirstRunController.cs:120-127 | the three roles are appended when none of Admin, User and Editor exists, and the table is left alone otherwise |
| FirstRunController.SeedAccounts | Controllers/FirstRunController.cs:106-169 | a refused administrator changes nothing; the run goes on exactly when both accounts are accepted and the Admin and User roles exist, and then it adds the two accounts with their roles |
| FirstRunController.SeedContent | Controllers/FirstRunController.cs:173-207 | the "General" category with slug "general", the default Home row and a finished FirstRun row are added, each under a key drawn from the store |
| FirstRunController.Bootstrap | Controllers/FirstRunController.cs:74-222 | Forbidden with nothing changed exactly when a FirstRun row exists; Created exactly when the run adds the FirstRun row; existing accounts and roles are always kept |
| FirstRunController.GeneralSlugIsGenerated | Controllers/FirstRunController.cs:179-181 | the stored slug of the base category is generateSlug("General") |
| FirstRunController.GeneralSlugOf | Controllers/FirstRunController.cs:179 | computing the slug of "General" gives "general" |
| FirstRunController.CreateAccounts | Controllers/FirstRunController.cs:106-169 | the action changes users and roles as SeedAccounts says |
| FirstRunController.CreateGeneralCategory | Controllers/FirstRunController.cs:172-184 | the General category, with its generated slug, is appended under the drawn key; Valid is kept |
| FirstRunController.CreateHome | Controllers/FirstRunController.cs:188-196 | the default home row is appended under the drawn key; Valid is kept |
| FirstRunController.LockRoute | Controllers/FirstRunController.cs:200-207 | the lock row is appended under the drawn key, so the route reports closed; Valid is kept |
| FirstRunController.CreateContent | Controllers/FirstRunController.cs:173-207 | the action changes the content tables as SeedContent says and keeps Valid |
| FirstRunController.RunFirstRun | Controllers/FirstRunController.cs:74-222 | the action changes the six tables as Bootstrap says and keeps Valid |
| FirstRunController.LockNeverReopens | Controllers/FirstRunController.cs:78-207 | after a successful run the status is closed and every later call is Forbidden and changes nothing |
| FirstRunController.StatusMatchesRoute | Controllers/FirstRunController.cs:38-90 | the status reports open exactly when a call would not be Forbidden |
| FirstRunController.AdminRefusedChangesNothing | Controllers/FirstRunController.cs:106-117 | a refused administrator gives BadRequest before any row is created |
| FirstRunController.DefaultRefusedLeavesRouteOpen | Controllers/FirstRunController.cs:155-166 | whenever the Admin role exists after the role step (it existed already, or none of Admin, User and Editor did), a refused default account gives BadRequest with the administrator created in the Admin role and the route still open |
| FirstRunController.RolesSeededOnlyWhenAbsent | Controllers/FirstRunController.cs:120-127 | if any of the three roles exists the role table is untouched |
| FirstRunController.SuccessfulRunSeedsContent | Controllers/FirstRunController.cs:173-207 | a successful run adds "General" with slug "general", one Home row with the default sub-heading, and the FirstRun row |
| FirstRunController.SuccessfulRunSeedsAccounts | Controllers/FirstRunController.cs:92-169 | a successful run adds the administrator in role Admin and the default account in role User, so later deletions have an heir |
| FirstRunController.FreshStoreRunSucceeds | Controllers/FirstRunController.cs:74-222 | on an empty store the run succeeds whenever both accounts are accepted |

## Left out

- PageParameter is not part of this model. Page numbers and sizes are required to be at least 1 wherever a listing is cut; smaller values are not modelled.
- Pagination.Create: the double division and Math.Ceiling are modelled as exact integer ceiling division. A page size of 0 divides by zero in floating point and is excluded.
- Slugs.SlugBase: the model is ASCII only. ToLower lower-cases only A-Z, and `\s` is the six ASCII whitespace characters. Culture and Unicode behaviour is left out.
- Comparisons the database or the identity store makes without regard to case are exact here. This covers SQL LIKE in the title search and the normalised lookup of user names, emails and roles.
- UserController.ChangeRole: GetRolesAsync returns an account's roles in an order the identity store chooses, and the source removes the first of them. The model's roles sequence stands for that order: "first" is its head, and putting the newly added role last is a choice of the model. The same holds for UserController.UpdateUserRole, which equals ChangeRole. Which role a later change removes from an account with several roles is therefore not promised by the source. ChangeRoleSwapsFirstRole states the effect as a multiset and does not depend on this choice.
- Listing.SortDesc: the model fixes one order for rows with equal keys. OrderByDescending leaves that order to the database.
- Data.Database.Valid: covers the tables with `long` identity keys; the account and role tables keep string GUID keys, which are inputs, and carry no invariant here.
- Data.Database.NewKey: each table has its own identity column; the model draws every key from one counter shared by all tables. Keys stay unique within each table, which is all the model relies on; that keys of different tables never coincide, or that the keys of one first run follow each other, is a property of the model only.
- The 64-bit key counter and the `long` ids are unbounded integers, so overflow is not modelled.
- BlogPostsController.PostBlogPost: a body that already carries a non-zero Id is inserted with that explicit key, which SQL Server refuses on an identity column, and the catch answers BadRequest (Controllers/BlogPostsController.cs:175-178). The model assumes the body carries no key and always takes the store's next key.
- ForumQueryController.PostForumQuery: the same holds for a forum query body with a non-zero Id (Controllers/ForumQueryController.cs:212-215).
- CommentsController.PostComment: the same holds for a comment body with a non-zero Id (Controllers/CommentsController.cs:155-158).
- ForumAnswerController.PostForumAnswer: the same holds for an answer body with a non-zero Id (Controllers/ForumAnswerController.cs:154-157).
- ForumQueryController.VoteForumQuery: the same holds for a vote body with a non-zero Id (Controllers/ForumQueryController.cs:361-364).
- Listing.Page: the skip offset `(PageNumber - 1) * PageSize` is a 32-bit `int` product in every list endpoint (Controllers/ForumQueryController.cs:57, Controllers/BlogPostsController.cs:33, Controllers/CommentsController.cs:46, Controllers/ForumAnswerController.cs:44). The model multiplies unbounded integers. For PageNumber 2^28 + 1 and PageSize 16 the source's product wraps to 0 and the first page comes back again, where the model returns an empty page.
- Foreign-key constraints and the ON DELETE CASCADE rules of the migrations are not modelled: the database also deletes a blog post's comments (Migrations/20220111100002_Update Comment Model.cs:46-52) and a comment's sub-comments (Migrations/20220111101342_Register Sub Comment Model to DBContext.cs:32-36). BlogPostsController.DeleteBlogPost states only what the controller itself does. Exceptions from SaveChanges other than a missing row are not modelled either. A DbUpdateConcurrencyException on Put is covered only as NotFound for a row that does not exist.
- Requests run one at a time. Races between concurrent requests, such as the vote read-then-write, are left out.
- The identity store's verdicts are boolean inputs: CreateAsync, DeleteAsync, ResetPasswordAsync and UpdateAsync. Generated GUIDs and the default password are inputs as well. Password hashing and reset tokens are left out.
- JWT login and token signing, Register, RegisterAdmin, RegisterEditor, the user listings, Me and GetSingleUser are left out: they are account plumbing with no table rule.
- The single-row GET endpoints of every controller and the GET-by-slug lookups are left out.
- The sub-comment, sub-answer, category, home and contact-form controllers are not part of this model. They are plain CRUD with no rule beyond the id check.
- Authentication/UserRoles.cs is not part of this model. Its role names are written as constants.
- No controller toggles stars. Star rows appear only where DeleteUser removes them.
- Models/BlogPost.cs, Models/Comment.cs and Models/Category.cs lack fields that the controllers read and write. The records here carry the fields the controllers use.
- Logging, HTTP envelopes, the X-Pagination header serialisation and EF Include eager loading are left out.
