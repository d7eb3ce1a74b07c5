/** The two user shapes the handlers work on: the request payload (the
    shared user model, whose role list a handler rewrites in place) and the
    identity entity (whose profile fields and team a handler overwrites). */
module Users {
  import opened Common
  import opened Lists

  /** The user model carried by the create and update commands. Id and
      Password may be null; Roles may be null when the request says so. */
  class UserModel {
    var id: Option<string>
    var email: string
    var username: string
    var fullName: string
    var phoneNumber: string
    var password: Option<string>
    var roles: StringList?
    var teamId: int

    constructor (id: Option<string>, email: string, username: string, fullName: string,
                 phoneNumber: string, password: Option<string>, roles: StringList?, teamId: int)
      ensures this.id == id && this.email == email && this.username == username
      ensures this.fullName == fullName && this.phoneNumber == phoneNumber
      ensures this.password == password && this.roles == roles && this.teamId == teamId
    {
      this.id := id;
      this.email := email;
      this.username := username;
      this.fullName := fullName;
      this.phoneNumber := phoneNumber;
      this.password := password;
      this.roles := roles;
      this.teamId := teamId;
    }
  }

  /** What a user handler answers with: the user's name and e-mail. */
  datatype UserView = UserView(username: string, email: string)

  /** The identity entity of a user. Its key is fixed when it is created;
      `password` stands for the stored credential (None: the user has none). */
  class ApplicationUser {
    const id: string
    var password: Option<string>
    var userName: string
    var email: string
    var phoneNumber: string
    var fullName: string
    var teamId: int

    constructor (id: string, userName: string, email: string, phoneNumber: string)
      ensures this.id == id && this.userName == userName && this.email == email
      ensures this.phoneNumber == phoneNumber && this.fullName == "" && this.teamId == 0
      ensures this.password == None
    {
      this.id := id;
      this.password := None;
      this.userName := userName;
      this.email := email;
      this.phoneNumber := phoneNumber;
      this.fullName := "";
      this.teamId := 0;
    }
  }
}
