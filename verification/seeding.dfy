/**
 * The start-up seeding (Program.cs): on a store without posts, the admin user
 * and fifty numbered posts are added and saved together.
 */
module Seeding {
  import opened Wrappers
  import opened Models
  import opened Text
  import opened Linq
  import Data
  import GenericRepository
  import PostRepository
  import AuthController

  const SEED_ADMIN: User := User(1, "admin", "password", "Administrator")
  const SEED_POST_COUNT: nat := 50

  /** The text every seeded body carries after its numbered first sentence. */
  const FILLER: string := " Lorem ipsum odor amet, consectetuer adipiscing elit. Condimentum quis commodo dapibus fringilla torquent. Neque class elit nunc justo potenti velit dictum. Dolor justo taciti per porta integer tristique placerat imperdiet. Iaculis vivamus primis taciti urna, morbi laoreet sagittis. Laoreet sapien taciti montes eget vivamus aenean. Accumsan et quam enim ornare; quisque placerat magnis.\r\n\r\nDolor justo himenaeos ut nunc laoreet sem. Sem interdum erat efficitur lectus congue ornare malesuada. Condimentum proin molestie nullam aptent fusce luctus dis tristique. Eu eleifend metus non et laoreet lacus velit luctus. Rutrum pulvinar ad lobortis dictum non primis tempor porta maecenas. Amet natoque facilisis curabitur ex bibendum consectetur ornare a suspendisse. Phasellus per finibus diam metus pulvinar massa lectus mus lorem. Aptent ex porta praesent cubilia justo commodo molestie id.\r\n\r\nAd ornare phasellus congue adipiscing sit morbi massa. Suspendisse scelerisque ultricies senectus nunc dolor ullamcorper morbi. Per sem iaculis venenatis nascetur, dictum blandit himenaeos. Himenaeos justo himenaeos ornare cubilia odio. Nunc interdum posuere dis quisque ornare, imperdiet felis curabitur lorem. Hac ornare aliquet sem ligula ipsum a elementum. Sed platea duis elit tempor, ante vel habitasse senectus venenatis. Finibus curabitur pharetra natoque scelerisque ornare tristique porta dis. Hac potenti quisque urna nibh integer quisque tempor.\r\n\r\nHendrerit hendrerit himenaeos lectus massa porttitor. Nec cubilia pretium commodo vel; mattis mollis montes. Dictumst habitant blandit pretium potenti rutrum class accumsan! Curae bibendum rutrum imperdiet sollicitudin semper per nam diam. Maximus rutrum gravida etiam luctus euismod interdum nullam neque nisl. Sit dui posuere eros, vulputate sodales mauris. Montes placerat pretium primis feugiat himenaeos proin maximus iaculis vehicula. Viverra sapien molestie in gravida aptent placerat sociosqu. Porttitor turpis habitant phasellus torquent leo dapibus."

  /** Post `i` of the seed: owned by the admin, titled and opened with its number. */
  function SeedPost(i: int): Post
  {
    Post(i, 1, "Post " + DecimalString(i), "This is the content of post number " + DecimalString(i) + "." + FILLER)
  }

  /** The posts the seeding loop builds: ids 1 to 50, in increasing order. */
  function SeedPosts(): (s: seq<Post>)
    ensures |s| == SEED_POST_COUNT
    ensures forall k | 0 <= k < |s| :: s[k] == SeedPost(k + 1)
  {
    seq(SEED_POST_COUNT, k requires 0 <= k < SEED_POST_COUNT => SeedPost(k + 1))
  }

  /** The seeding loop: posts 1 to 50, appended in order. */
  method BuildSeedPosts() returns (posts: seq<Post>)
    ensures posts == SeedPosts()
  {
    posts := [];
    for i := 1 to SEED_POST_COUNT + 1
      invariant |posts| == i - 1
      invariant forall k | 0 <= k < |posts| :: posts[k] == SeedPost(k + 1)
    {
      posts := posts + [SeedPost(i)];
    }
  }

  /** The seeding block. With posts already stored nothing happens. Otherwise the
      admin and the fifty posts are added and saved in one `SaveChanges`, which
      throws, saving nothing, when a user with id 1 is already stored. */
  method Seed(context: Data.BlogDbContext) returns (r: Result<(), ServerError>)
    requires context.Valid()
    modifies context.posts, context.users
    ensures context.Valid()
    ensures context.comments.rows == old(context.comments.rows)
    ensures old(context.posts.rows) != [] ==>
      r.Success? && context.posts.rows == old(context.posts.rows) && context.users.rows == old(context.users.rows)
    ensures old(context.posts.rows) == [] && GenericRepository.GetById(old(context.users.rows), UserKey, 1).Some? ==>
      r == Failure(DuplicateKey) && context.posts.rows == old(context.posts.rows) && context.users.rows == old(context.users.rows)
    ensures old(context.posts.rows) == [] && GenericRepository.GetById(old(context.users.rows), UserKey, 1).None? ==>
      r.Success? && context.posts.rows == SeedPosts() && context.users.rows == old(context.users.rows) + [SEED_ADMIN]
  {
    if context.posts.rows != [] {
      return Success(());
    }
    var posts := BuildSeedPosts();
    if GenericRepository.GetById(context.users.rows, UserKey, 1).Some? {
      return Failure(DuplicateKey);
    }
    SeedPostsUnique();
    GenericRepository.AppendKeepsKeysUnique(context.users.rows, SEED_ADMIN, UserKey);
    context.users.rows := context.users.rows + [SEED_ADMIN];
    context.posts.rows := posts;
    r := Success(());
  }

  // ---------------------------------------------------------------------------
  // Properties of the seed.

  /** The seeded ids are 1 to 50, strictly increasing, so they are unique. */
  lemma SeedPostsUnique()
    ensures forall i, j | 0 <= i < j < SEED_POST_COUNT :: SeedPosts()[i].id < SeedPosts()[j].id
    ensures UniqueKeys(SeedPosts(), PostKey)
  {
  }

  /** Every seeded post is owned by user 1, is titled with its number, and its
      body opens with the sentence naming that number. */
  lemma SeedPostShape(k: nat)
    requires k < SEED_POST_COUNT
    ensures var p := SeedPosts()[k];
            var opening := "This is the content of post number " + DecimalString(k + 1) + ".";
            && p.id == k + 1 && p.userId == SEED_ADMIN.id
            && p.title == "Post " + DecimalString(k + 1)
            && |opening| <= |p.body| && p.body[..|opening|] == opening
  {
  }

  /** Every seeded body is at least 500 characters, so its preview never throws. */
  lemma SeedBodiesPreview(k: nat)
    requires k < SEED_POST_COUNT
    ensures |SeedPosts()[k].body| >= 500
    ensures PostRepository.Preview(SeedPosts()[k].body).Success?
  {
    assert |FILLER| >= 500;
  }

  /** No seeded post makes the listing throw. */
  lemma SeedPostsPreview()
    ensures forall p | p in SeedPosts() :: PostRepository.Preview(p.body).Success?
  {
    forall p | p in SeedPosts() ensures PostRepository.Preview(p.body).Success? {
      var i :| 0 <= i < SEED_POST_COUNT && SeedPosts()[i] == p;
      SeedBodiesPreview(i);
    }
  }

  /** Once the admin is stored under id 1, the post join keeps every seeded post. */
  lemma SeededJoinKeepsAll(users: seq<User>)
    requires SEED_ADMIN in users && UniqueKeys(users, UserKey)
    ensures |PostRepository.JoinedPosts(SeedPosts(), users)| == SEED_POST_COUNT
  {
    var posts := SeedPosts();
    forall p | p in posts ensures exists u | u in users :: UserKey(u) == PostAuthor(p) {
      assert UserKey(SEED_ADMIN) == PostAuthor(p);
    }
    JoinKeepsOuter(posts, users, PostAuthor, UserKey);
  }

  /** With the admin stored, every page of the seeded listing is produced without
      an exception and counts all fifty posts. */
  lemma SeededListing(users: seq<User>, page: int, pageSize: int)
    requires SEED_ADMIN in users && UniqueKeys(users, UserKey)
    ensures PostRepository.GetAll(SeedPosts(), users, page, pageSize).Success?
    ensures PostRepository.GetAll(SeedPosts(), users, page, pageSize).value.totalCount == SEED_POST_COUNT
  {
    var posts := SeedPosts();
    SeededJoinKeepsAll(users);
    SeedPostsPreview();
    var ordered := PostRepository.OrderedPosts(posts, users);
    var rows := Page(ordered, page, pageSize);
    PageBounded(ordered, page, pageSize);
    forall k | 0 <= k < |rows| ensures PostRepository.Preview(rows[k].0.body).Success? {
      assert rows[k] in rows;
      PostRepository.OrderedPostsMember(posts, users, rows[k]);
    }
  }

  /** The seeded admin, ahead of any other user named `admin`, can log in once a
      secret is configured, and the token's subject is user id 1. */
  lemma SeededAdminLogsIn(users: seq<User>, i: nat, configuration: AuthController.Configuration, now: int)
    requires i < |users| && users[i] == SEED_ADMIN
    requires forall j | 0 <= j < i :: users[j].username != SEED_ADMIN.username
    requires AuthController.Setting(configuration, "Jwt:SecretKey").Some?
    ensures var r := AuthController.Login(LoginDto("admin", "password"), users, configuration, now);
            && r.Success? && r.value.Ok?
            && ParseDecimal(r.value.value.claims[0].value) == Some(1)
  {
    assert users[i] in users;
    AuthController.LoginWithAdminCredentials(users, configuration, now);
    AuthController.LoginSubjectIsAdminId(users, configuration, now);
  }
}
