/** The rows of the database and the identity store, with the fields the controllers read and
    write. Integer keys are the store's long identity columns; user and role keys are the string
    ids the identity store generates. Dates are ticks. */
module Entities {

  datatype Option<T> = None | Some(value: T)

  /** The HTTP status a controller action answers with. */
  datatype Status = Ok | Created | BadRequest | NotFound | Forbidden

  datatype Gender = Male | Female | Unspecified

  datatype BlogPost = BlogPost(id: int, title: string, description: string, excerpt: string, slug: string,
                               datePosted: int, categoryId: int, authorId: string)

  datatype Comment = Comment(id: int, content: string, datePosted: int, postId: int, userId: string)

  datatype SubComment = SubComment(id: int, description: string, datePosted: int, commentId: int, userId: string)

  datatype ForumQuery = ForumQuery(id: int, title: string, description: string, slug: string, datePosted: int,
                                   vote: int, categoryId: int, authorId: string)

  datatype ForumAnswer = ForumAnswer(id: int, answer: string, datePosted: int, userId: string, queryId: int)

  datatype ForumSubAnswer = ForumSubAnswer(id: int, answer: string, datePosted: int, queryAnswerId: int, userId: string)

  /** One user's vote on one forum query. */
  datatype Vote = Vote(id: int, forumId: int, userId: string)

  /** One user's star on one blog post. */
  datatype Star = Star(id: int, blogPostId: int, userId: string)

  datatype Category = Category(id: int, name: string, slug: string)

  datatype Home = Home(id: int, subHeading: string, headerImage: string)

  datatype FirstRun = FirstRun(id: int, isFinished: bool)

  /** An account of the identity store, with the names of the roles it is in. */
  datatype User = User(id: string, userName: string, email: string, firstName: string, lastName: string,
                       gender: Gender, profileImage: string, isRestricted: bool, address: string, dob: string,
                       password: string, roles: seq<string>)

  datatype Role = Role(id: string, name: string)

  /** The account that inherits the rows of deleted users; the first run creates it. */
  const DefaultUserEmail: string := "defaultUser@mail.com"

  /** The role names of the identity store (the UserRoles constants). */
  const AdminRole: string := "Admin"
  const UserRole: string := "User"
  const EditorRole: string := "Editor"

  // Keys and owner fields, named so that generic table operations can be handed them.

  function BlogPostId(b: BlogPost): int { b.id }
  function CommentId(c: Comment): int { c.id }
  function ForumQueryId(q: ForumQuery): int { q.id }
  function ForumAnswerId(a: ForumAnswer): int { a.id }
  function CategoryId(c: Category): int { c.id }
  function SubCommentId(c: SubComment): int { c.id }
  function ForumSubAnswerId(a: ForumSubAnswer): int { a.id }
  function VoteId(v: Vote): int { v.id }
  function StarId(s: Star): int { s.id }
  function HomeId(h: Home): int { h.id }
  function FirstRunId(f: FirstRun): int { f.id }
  function UserId(u: User): string { u.id }
  function UserName(u: User): string { u.userName }
  function UserEmail(u: User): string { u.email }
  function RoleId(r: Role): string { r.id }
  function RoleName(r: Role): string { r.name }

  function SubCommentParent(s: SubComment): int { s.commentId }
  function ForumSubAnswerParent(s: ForumSubAnswer): int { s.queryAnswerId }

  function BlogPostAuthor(b: BlogPost): string { b.authorId }
  function WithBlogPostAuthor(b: BlogPost, id: string): BlogPost { b.(authorId := id) }
  function CommentAuthor(c: Comment): string { c.userId }
  function WithCommentAuthor(c: Comment, id: string): Comment { c.(userId := id) }
  function SubCommentAuthor(c: SubComment): string { c.userId }
  function WithSubCommentAuthor(c: SubComment, id: string): SubComment { c.(userId := id) }
  function ForumQueryAuthor(q: ForumQuery): string { q.authorId }
  function WithForumQueryAuthor(q: ForumQuery, id: string): ForumQuery { q.(authorId := id) }
  function ForumAnswerAuthor(a: ForumAnswer): string { a.userId }
  function WithForumAnswerAuthor(a: ForumAnswer, id: string): ForumAnswer { a.(userId := id) }
  function ForumSubAnswerAuthor(a: ForumSubAnswer): string { a.userId }
  function WithForumSubAnswerAuthor(a: ForumSubAnswer, id: string): ForumSubAnswer { a.(userId := id) }
}
